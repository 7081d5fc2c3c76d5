/**
 * The calls one output cycle makes on the registered outputters, as a trace.
 *
 * An outputter is named by its registration index.  The engine's own step
 * that is visible in the trace is the gradient refresh; the device-to-host
 * transfers are not recorded.
 */
module SliceEvents {
  import opened SliceTraversal

  /** A call on one outputter. */
  datatype Op =
    | Begin(bin: int)                  // begin(bin_idx)
    | Accumulate(fdx: int, idx: int)   // accumulate(...) reading field offset fdx and gradient offset idx
    | Advance                          // advance()
    | Flush                            // flush()

  /** One step of an output cycle. */
  datatype Event = GradientCompute | Call(target: nat, op: Op)

  /** The accumulate call for cell `q`: field buffers at stride `phi.ldl`, gradients at `gc.phigradx.ldl`. */
  function AccumulateAt(c: SliceConfig, q: Pos): Op
  {
    Accumulate(FieldIndex(c, q), GradIndex(c, q))
  }

  /** `op` sent once to each of the `m` outputters, in registration order. */
  function Broadcast(m: nat, op: Op): (r: seq<Event>)
    ensures |r| == m
  {
    if m == 0 then [] else Broadcast(m - 1, op) + [Call(m - 1, op)]
  }

  /** A broadcast sends only `op`, and only to registered outputters. */
  lemma {:induction false} BroadcastMembers(m: nat, op: Op)
    ensures forall e :: e in Broadcast(m, op) ==> e.Call? && e.target < m && e.op == op
  {
    if m > 0 {
      BroadcastMembers(m - 1, op);
    }
  }

  /** The broadcast calls outputter `o` at position `o`. */
  lemma {:induction false} BroadcastLayout(m: nat, op: Op)
    ensures forall o :: 0 <= o < m ==> Broadcast(m, op)[o] == Call(o, op)
  {
    if m > 0 {
      BroadcastLayout(m - 1, op);
    }
  }

  /** Number of occurrences of `x` in `s`. */
  function Count<T(==)>(s: seq<T>, x: T): nat
  {
    if |s| == 0 then 0 else Count(s[..|s| - 1], x) + (if s[|s| - 1] == x then 1 else 0)
  }

  lemma {:induction false} CountConcat<T>(a: seq<T>, b: seq<T>, x: T)
    ensures Count(a + b, x) == Count(a, x) + Count(b, x)
    decreases |b|
  {
    if |b| > 0 {
      assert (a + b)[..|a + b| - 1] == a + b[..|b| - 1];
      CountConcat(a, b[..|b| - 1], x);
    } else {
      assert a + b == a;
    }
  }

  lemma CountSingle<T>(y: T, x: T)
    ensures Count([y], x) == if y == x then 1 else 0
  {
    assert [y][..0] == [];
  }

  lemma {:induction false} CountAbsent<T>(s: seq<T>, x: T)
    requires x !in s
    ensures Count(s, x) == 0
  {
    if |s| > 0 {
      assert forall y :: y in s[..|s| - 1] ==> y in s;
      CountAbsent(s[..|s| - 1], x);
    }
  }

  /** A broadcast reaches each registered outputter exactly once and nobody else. */
  lemma {:induction false} BroadcastCount(m: nat, op: Op, o: nat)
    ensures Count(Broadcast(m, op), Call(o, op)) == if o < m then 1 else 0
  {
    if m > 0 {
      var prev, last, x := Broadcast(m - 1, op), Call(m - 1, op), Call(o, op);
      assert Broadcast(m, op) == prev + [last];
      BroadcastCount(m - 1, op, o);
      CountConcat(prev, [last], x);
      CountSingle(last, x);
    }
  }

  /**
   * Non-averaging body at one cell: every outputter in registration order
   * accumulates the cell and advances right after it.
   */
  function PointEvents(m: nat, fdx: int, idx: int): (r: seq<Event>)
    ensures |r| == 2 * m
  {
    if m == 0 then []
    else PointEvents(m - 1, fdx, idx) + PointPair(m - 1, fdx, idx)
  }

  /** Outputter `o` accumulates one cell and advances right away. */
  function PointPair(o: nat, fdx: int, idx: int): seq<Event>
  {
    [Call(o, Accumulate(fdx, idx)), Call(o, Advance)]
  }

  /**
   * In point mode outputter `o` accumulates at position `2 * o` of the body
   * and advances right after, at `2 * o + 1`.
   */
  lemma {:induction false} PointLayout(m: nat, fdx: int, idx: int)
    ensures forall t :: 0 <= t < 2 * m ==>
              PointEvents(m, fdx, idx)[t] == Call(t / 2, if t % 2 == 0 then Accumulate(fdx, idx) else Advance)
  {
    if m > 0 {
      PointLayout(m - 1, fdx, idx);
    }
  }

  /** Averaging accumulation over `cells`: for each cell in order, every outputter accumulates it. */
  function CellAccs(c: SliceConfig, m: nat, cells: seq<Pos>): seq<Event>
  {
    if cells == [] then []
    else CellAccs(c, m, cells[..|cells| - 1]) + Broadcast(m, AccumulateAt(c, cells[|cells| - 1]))
  }

  /** Averaging accumulation sends only accumulates, and only to registered outputters. */
  lemma {:induction false} CellAccsMembers(c: SliceConfig, m: nat, cells: seq<Pos>)
    ensures forall e :: e in CellAccs(c, m, cells) ==> e.Call? && e.target < m && e.op.Accumulate?
  {
    if cells != [] {
      CellAccsMembers(c, m, cells[..|cells| - 1]);
      BroadcastMembers(m, AccumulateAt(c, cells[|cells| - 1]));
    }
  }

  lemma {:induction false} CellAccsLength(c: SliceConfig, m: nat, cells: seq<Pos>)
    ensures |CellAccs(c, m, cells)| == |cells| * m
  {
    if cells != [] {
      CellAccsLength(c, m, cells[..|cells| - 1]);
      assert (|cells| - 1) * m + m == |cells| * m;
    }
  }

  /**
   * Averaging accumulation calls come cell by cell: the call at `t * m + o`
   * is outputter `o` accumulating the `t`-th cell.
   */
  lemma {:induction false} CellAccsLayout(c: SliceConfig, m: nat, cells: seq<Pos>, t: nat, o: nat)
    requires t < |cells| && o < m
    ensures |CellAccs(c, m, cells)| == |cells| * m
    ensures 0 <= t * m + o < |cells| * m
    ensures CellAccs(c, m, cells)[t * m + o] == Call(o, AccumulateAt(c, cells[t]))
  {
    var prefix := cells[..|cells| - 1];
    var head := CellAccs(c, m, prefix);
    var tail := Broadcast(m, AccumulateAt(c, cells[|cells| - 1]));
    assert CellAccs(c, m, cells) == head + tail;
    CellAccsLength(c, m, prefix);
    MulSucc(|prefix|, m);
    MulNonneg(t, m);
    if t < |prefix| {
      CellAccsLayout(c, m, prefix, t, o);
      assert prefix[t] == cells[t];
    } else {
      BroadcastLayout(m, AccumulateAt(c, cells[t]));
    }
  }

  /** Averaging body at position `p`: accumulate the whole block, then every outputter advances. */
  function BlockEvents(c: SliceConfig, m: nat, p: Pos): seq<Event>
    requires c.skip > 0
  {
    CellAccs(c, m, BlockCells(c, p)) + Broadcast(m, Advance)
  }

  /** The accumulate/advance part of the body at position `p`, as the mode selects. */
  function SampleEvents(c: SliceConfig, m: nat, p: Pos): seq<Event>
    requires c.skip > 0
  {
    if c.average then BlockEvents(c, m, p) else PointEvents(m, FieldIndex(c, p), GradIndex(c, p))
  }

  /** Everything the engine asks of the outputters at visited position `p`. */
  function PositionEvents(c: SliceConfig, m: nat, p: Pos): seq<Event>
    requires c.skip > 0
  {
    SampleEvents(c, m, p) + Broadcast(m, Flush)
  }

  /** The calls made for the positions `ps`, visited in order. */
  function EventsAt(c: SliceConfig, m: nat, ps: seq<Pos>): seq<Event>
    requires c.skip > 0
  {
    if ps == [] then [] else EventsAt(c, m, ps[..|ps| - 1]) + PositionEvents(c, m, ps[|ps| - 1])
  }

  /** Visiting one more position appends that position's calls. */
  lemma EventsAtExtend(c: SliceConfig, m: nat, ps: seq<Pos>, p: Pos)
    requires c.skip > 0
    ensures EventsAt(c, m, ps + [p]) == EventsAt(c, m, ps) + PositionEvents(c, m, p)
  {
    assert (ps + [p])[..|ps|] == ps;
  }

  /** Visiting `a` and then `b` makes the calls of `a` followed by those of `b`. */
  lemma {:induction false} EventsAtConcat(c: SliceConfig, m: nat, a: seq<Pos>, b: seq<Pos>)
    requires c.skip > 0
    ensures EventsAt(c, m, a + b) == EventsAt(c, m, a) + EventsAt(c, m, b)
    decreases |b|
  {
    if b == [] {
      assert a + b == a;
    } else {
      var rest, p := b[..|b| - 1], b[|b| - 1];
      assert a + b == (a + rest) + [p] by {
        assert b == rest + [p];
      }
      EventsAtConcat(c, m, a, rest);
      EventsAtExtend(c, m, a + rest, p);
      assert EventsAt(c, m, b) == EventsAt(c, m, rest) + PositionEvents(c, m, p);
      ConcatAssoc(EventsAt(c, m, a), EventsAt(c, m, rest), PositionEvents(c, m, p));
    }
  }

  /** Accumulating one more block cell appends one accumulate per outputter. */
  lemma CellAccsExtend(c: SliceConfig, m: nat, cells: seq<Pos>, q: Pos)
    ensures CellAccs(c, m, cells + [q]) == CellAccs(c, m, cells) + Broadcast(m, AccumulateAt(c, q))
  {
    assert (cells + [q])[..|cells|] == cells;
  }

  /** Accumulating `a` and then `b` makes the accumulates of `a` followed by those of `b`. */
  lemma {:induction false} CellAccsConcat(c: SliceConfig, m: nat, a: seq<Pos>, b: seq<Pos>)
    ensures CellAccs(c, m, a + b) == CellAccs(c, m, a) + CellAccs(c, m, b)
    decreases |b|
  {
    if b == [] {
      assert a + b == a;
    } else {
      var rest, q := b[..|b| - 1], b[|b| - 1];
      assert a + b == (a + rest) + [q] by {
        assert b == rest + [q];
      }
      CellAccsConcat(c, m, a, rest);
      CellAccsExtend(c, m, a + rest, q);
      assert CellAccs(c, m, b) == CellAccs(c, m, rest) + Broadcast(m, AccumulateAt(c, q));
      ConcatAssoc(CellAccs(c, m, a), CellAccs(c, m, rest), Broadcast(m, AccumulateAt(c, q)));
    }
  }

  /**
   * One call of `output()` with `m` registered outputters and cycle counter
   * `bin`: nothing at all when no outputter is registered; otherwise the
   * gradient refresh, `begin(bin)` to every outputter, then the traversal.
   */
  function CycleTrace(c: SliceConfig, m: nat, bin: int): seq<Event>
    requires c.skip > 0
  {
    if m == 0 then [] else [GradientCompute] + Broadcast(m, Begin(bin)) + EventsAt(c, m, Positions(c))
  }

  /** A call made while sampling a position: to a registered outputter, an accumulate or an advance. */
  predicate IsSampleCall(e: Event, m: nat)
  {
    e.Call? && e.target < m && (e.op.Accumulate? || e.op.Advance?)
  }

  /**
   * In either mode, sampling one position sends only accumulates and
   * advances, and exactly one advance to each registered outputter.
   */
  lemma {:induction false} SampleEventsCalls(c: SliceConfig, m: nat, p: Pos, o: nat)
    requires c.skip > 0
    ensures forall e :: e in SampleEvents(c, m, p) ==> IsSampleCall(e, m)
    ensures Count(SampleEvents(c, m, p), Call(o, Advance)) == if o < m then 1 else 0
  {
    if c.average {
      var accs := CellAccs(c, m, BlockCells(c, p));
      CellAccsMembers(c, m, BlockCells(c, p));
      BroadcastMembers(m, Advance);
      CountAbsent(accs, Call(o, Advance));
      BroadcastCount(m, Advance, o);
      CountConcat(accs, Broadcast(m, Advance), Call(o, Advance));
    } else {
      PointAdvanceCount(m, FieldIndex(c, p), GradIndex(c, p), o);
      PointSampleCalls(m, FieldIndex(c, p), GradIndex(c, p));
    }
  }

  lemma {:induction false} PointAdvanceCount(m: nat, fdx: int, idx: int, o: nat)
    ensures Count(PointEvents(m, fdx, idx), Call(o, Advance)) == if o < m then 1 else 0
  {
    if m > 0 {
      PointAdvanceCount(m - 1, fdx, idx, o);
      var x := Call(o, Advance);
      var p, q := Call(m - 1, Accumulate(fdx, idx)), Call(m - 1, Advance);
      assert PointPair(m - 1, fdx, idx) == [p] + [q];
      CountConcat(PointEvents(m - 1, fdx, idx), [p] + [q], x);
      CountConcat([p], [q], x);
      CountSingle(p, x);
      CountSingle(q, x);
    }
  }

  lemma PointSampleCalls(m: nat, fdx: int, idx: int)
    ensures forall e :: e in PointEvents(m, fdx, idx) ==> IsSampleCall(e, m)
  {
    var r := PointEvents(m, fdx, idx);
    PointLayout(m, fdx, idx);
    forall e | e in r
      ensures IsSampleCall(e, m)
    {
      var t :| 0 <= t < |r| && r[t] == e;
    }
  }

  /**
   * The averaging body over the block `cells` (`BlockEvents` with
   * `cells == BlockCells(c, p)`): outputter `o` accumulating the `t`-th
   * cell at `t * m + o`, then one advance per outputter in registration
   * order.
   */
  lemma AveragingLayout(c: SliceConfig, m: nat, cells: seq<Pos>)
    ensures |CellAccs(c, m, cells) + Broadcast(m, Advance)| == |cells| * m + m
    ensures forall t, o | 0 <= t < |cells| && 0 <= o < m ::
              0 <= t * m + o < |cells| * m &&
              (CellAccs(c, m, cells) + Broadcast(m, Advance))[t * m + o] == Call(o, AccumulateAt(c, cells[t]))
    ensures forall o | 0 <= o < m :: (CellAccs(c, m, cells) + Broadcast(m, Advance))[|cells| * m + o] == Call(o, Advance)
  {
    CellAccsLength(c, m, cells);
    forall t, o | 0 <= t < |cells| && 0 <= o < m
      ensures 0 <= t * m + o < |cells| * m &&
              (CellAccs(c, m, cells) + Broadcast(m, Advance))[t * m + o] == Call(o, AccumulateAt(c, cells[t]))
    {
      AveragingSlot(c, m, cells, t, o);
    }
    forall o | 0 <= o < m
      ensures (CellAccs(c, m, cells) + Broadcast(m, Advance))[|cells| * m + o] == Call(o, Advance)
    {
      BroadcastLayout(m, Advance);
      ConcatRight(CellAccs(c, m, cells), Broadcast(m, Advance), o);
    }
  }

  lemma AveragingSlot(c: SliceConfig, m: nat, cells: seq<Pos>, t: int, o: int)
    requires 0 <= t < |cells| && 0 <= o < m
    ensures |CellAccs(c, m, cells)| == |cells| * m
    ensures 0 <= t * m + o < |cells| * m
    ensures (CellAccs(c, m, cells) + Broadcast(m, Advance))[t * m + o] == Call(o, AccumulateAt(c, cells[t]))
  {
    CellAccsLayout(c, m, cells, t, o);
    ConcatLeft(CellAccs(c, m, cells), Broadcast(m, Advance), t * m + o);
  }

  lemma ConcatLeft<T>(a: seq<T>, b: seq<T>, i: int)
    requires 0 <= i < |a|
    ensures (a + b)[i] == a[i]
  {
  }

  lemma ConcatRight<T>(a: seq<T>, b: seq<T>, i: int)
    requires 0 <= i < |b|
    ensures (a + b)[|a| + i] == b[i]
  {
  }

  /**
   * At every visited position all sampling calls come first, each outputter
   * advanced exactly once, and the position ends with one flush per
   * outputter in registration order.
   */
  lemma PositionEventsOrder(c: SliceConfig, m: nat, p: Pos, o: nat)
    requires c.skip > 0
    ensures var pe := PositionEvents(c, m, p);
      |pe| >= m &&
      (forall t :: |pe| - m <= t < |pe| ==> pe[t] == Call(t - (|pe| - m), Flush)) &&
      (forall t :: 0 <= t < |pe| - m ==> IsSampleCall(pe[t], m)) &&
      Count(pe[..|pe| - m], Call(o, Advance)) == (if o < m then 1 else 0)
  {
    var pe := PositionEvents(c, m, p);
    var s := SampleEvents(c, m, p);
    SampleEventsCalls(c, m, p, o);
    BroadcastLayout(m, Flush);
    assert pe[..|pe| - m] == s;
    forall t | 0 <= t < |pe| - m
      ensures IsSampleCall(pe[t], m)
    {
      assert pe[t] == s[t] && s[t] in s;
    }
  }

  /** Every call of a traversal goes to a registered outputter and is never a `begin`. */
  predicate IsTraversalCall(e: Event, m: nat)
  {
    e.Call? && e.target < m && !e.op.Begin?
  }

  lemma {:induction false} EventsAtTargets(c: SliceConfig, m: nat, ps: seq<Pos>)
    requires c.skip > 0
    ensures forall e :: e in EventsAt(c, m, ps) ==> IsTraversalCall(e, m)
  {
    if ps != [] {
      var p := ps[|ps| - 1];
      EventsAtTargets(c, m, ps[..|ps| - 1]);
      SampleEventsCalls(c, m, p, 0);
      BroadcastMembers(m, Flush);
    }
  }

  /** Over a traversal of `ps`, each outputter receives one advance and one flush per position. */
  lemma {:induction false} EventsAtCounts(c: SliceConfig, m: nat, ps: seq<Pos>, o: nat)
    requires c.skip > 0 && o < m
    ensures Count(EventsAt(c, m, ps), Call(o, Flush)) == |ps|
    ensures Count(EventsAt(c, m, ps), Call(o, Advance)) == |ps|
  {
    if ps != [] {
      var p := ps[|ps| - 1];
      var prefix := ps[..|ps| - 1];
      EventsAtCounts(c, m, prefix, o);
      var s := SampleEvents(c, m, p);
      var f := Broadcast(m, Flush);
      var prev := EventsAt(c, m, prefix);
      assert EventsAt(c, m, ps) == prev + (s + f);
      SampleEventsCalls(c, m, p, o);
      assert !IsSampleCall(Call(o, Flush), m);
      CountAbsent(s, Call(o, Flush));
      BroadcastCount(m, Flush, o);
      BroadcastMembers(m, Flush);
      assert Call(o, Advance) !in f;
      CountAbsent(f, Call(o, Advance));
      CountConcat(prev, s + f, Call(o, Flush));
      CountConcat(s, f, Call(o, Flush));
      CountConcat(prev, s + f, Call(o, Advance));
      CountConcat(s, f, Call(o, Advance));
    }
  }

  /**
   * A cycle with registered outputters starts with the gradient refresh,
   * then `begin(bin)` to every outputter in registration order; no `begin`
   * follows, so every outputter has begun before any accumulate.  With no
   * outputter registered nothing happens at all.
   */
  lemma CycleBeginsFirst(c: SliceConfig, m: nat, bin: int)
    requires c.skip > 0
    ensures m == 0 ==> CycleTrace(c, m, bin) == []
    ensures m > 0 ==> var tr := CycleTrace(c, m, bin);
      |tr| >= 1 + m && tr[0] == GradientCompute &&
      (forall o :: 0 <= o < m ==> tr[1 + o] == Call(o, Begin(bin))) &&
      (forall t :: 1 + m <= t < |tr| ==> IsTraversalCall(tr[t], m))
  {
    if m > 0 {
      var tr := CycleTrace(c, m, bin);
      var begins := Broadcast(m, Begin(bin));
      var body := EventsAt(c, m, Positions(c));
      assert tr == [GradientCompute] + begins + body;
      BroadcastLayout(m, Begin(bin));
      EventsAtTargets(c, m, Positions(c));
      forall t | 1 + m <= t < |tr|
        ensures IsTraversalCall(tr[t], m)
      {
        assert tr[t] == body[t - 1 - m] && body[t - 1 - m] in body;
      }
    }
  }

  /**
   * Per cycle each registered outputter begins once with the current
   * counter, and receives exactly one advance and one flush per visited
   * position.
   */
  lemma CycleCallCounts(c: SliceConfig, m: nat, bin: int, o: nat)
    requires c.skip > 0 && o < m
    ensures Count(CycleTrace(c, m, bin), Call(o, Begin(bin))) == 1
    ensures Count(CycleTrace(c, m, bin), Call(o, Flush)) == |Positions(c)|
    ensures Count(CycleTrace(c, m, bin), Call(o, Advance)) == |Positions(c)|
  {
    var head := [GradientCompute];
    var begins := Broadcast(m, Begin(bin));
    var body := EventsAt(c, m, Positions(c));
    assert CycleTrace(c, m, bin) == head + (begins + body);
    EventsAtTargets(c, m, Positions(c));
    EventsAtCounts(c, m, Positions(c), o);
    BroadcastCount(m, Begin(bin), o);
    BroadcastMembers(m, Begin(bin));
    assert Call(o, Begin(bin)) !in body;
    CountAbsent(body, Call(o, Begin(bin)));
    assert Call(o, Flush) !in begins && Call(o, Advance) !in begins;
    CountAbsent(begins, Call(o, Flush));
    CountAbsent(begins, Call(o, Advance));
    forall x | x != GradientCompute
      ensures Count(CycleTrace(c, m, bin), x) == Count(begins, x) + Count(body, x)
    {
      CountConcat(head, begins + body, x);
      CountConcat(begins, body, x);
      CountSingle(GradientCompute, x);
    }
  }

  /** An accumulate reads inside the `n * n * ldl` field and gradient buffers. */
  predicate ReadsInBounds(c: SliceConfig, e: Event)
  {
    e.Call? && e.op.Accumulate? ==>
      0 <= e.op.fdx < c.n * c.n * c.ldlField && 0 <= e.op.idx < c.n * c.n * c.ldlGrad
  }

  lemma {:induction false} CellAccsInBounds(c: SliceConfig, m: nat, cells: seq<Pos>)
    requires c.n <= c.ldlField && c.n <= c.ldlGrad
    requires forall q :: q in cells ==> InGrid(q, c.n)
    ensures forall e :: e in CellAccs(c, m, cells) ==> ReadsInBounds(c, e)
  {
    if cells != [] {
      var q := cells[|cells| - 1];
      CellAccsInBounds(c, m, cells[..|cells| - 1]);
      FlatIndexBounds(q, c.ldlField, c.n);
      FlatIndexBounds(q, c.ldlGrad, c.n);
      BroadcastMembers(m, AccumulateAt(c, q));
    }
  }

  lemma PositionInBounds(c: SliceConfig, m: nat, p: Pos)
    requires c.skip > 0 && c.n <= c.ldlField && c.n <= c.ldlGrad
    requires c.average || c.length <= c.n
    requires p in Positions(c)
    ensures forall e :: e in PositionEvents(c, m, p) ==> ReadsInBounds(c, e)
  {
    PositionsExact(c, p);
    BroadcastMembers(m, Flush);
    if c.average {
      forall q | q in BlockCells(c, p)
        ensures InGrid(q, c.n)
      {
        BlockInsideGrid(c, p, q);
      }
      CellAccsInBounds(c, m, BlockCells(c, p));
      BroadcastMembers(m, Advance);
    } else {
      assert InGrid(p, c.n);
      FlatIndexBounds(p, c.ldlField, c.n);
      FlatIndexBounds(p, c.ldlGrad, c.n);
      var r := PointEvents(m, FieldIndex(c, p), GradIndex(c, p));
      PointLayout(m, FieldIndex(c, p), GradIndex(c, p));
      forall e | e in r
        ensures ReadsInBounds(c, e)
      {
        var t :| 0 <= t < |r| && r[t] == e;
      }
    }
  }

  lemma {:induction false} EventsAtInBounds(c: SliceConfig, m: nat, ps: seq<Pos>)
    requires c.skip > 0 && c.n <= c.ldlField && c.n <= c.ldlGrad
    requires c.average || c.length <= c.n
    requires forall p :: p in ps ==> p in Positions(c)
    ensures forall e :: e in EventsAt(c, m, ps) ==> ReadsInBounds(c, e)
  {
    if ps != [] {
      EventsAtInBounds(c, m, ps[..|ps| - 1]);
      PositionInBounds(c, m, ps[|ps| - 1]);
    }
  }

  /**
   * Every buffer read of a cycle stays inside the grid's `n * n * ldl`
   * buffers, provided the leading dimensions are at least `n`.  In averaging
   * mode the blocks are clipped at `n`; in point mode the positions are not
   * clipped, so the slice length must not exceed `n`.
   */
  lemma CycleReadsInBounds(c: SliceConfig, m: nat, bin: int)
    requires c.skip > 0 && c.n <= c.ldlField && c.n <= c.ldlGrad
    requires c.average || c.length <= c.n
    ensures forall e :: e in CycleTrace(c, m, bin) ==> ReadsInBounds(c, e)
  {
    if m > 0 {
      var begins := Broadcast(m, Begin(bin));
      var body := EventsAt(c, m, Positions(c));
      assert CycleTrace(c, m, bin) == [GradientCompute] + begins + body;
      EventsAtInBounds(c, m, Positions(c));
      BroadcastMembers(m, Begin(bin));
      forall e | e in CycleTrace(c, m, bin)
        ensures ReadsInBounds(c, e)
      {
        if e in begins {
          var o :| 0 <= o < m && begins[o] == e;
        }
      }
    }
  }

  /**
   * In point mode the positions are not clipped at the grid: when the slice
   * is longer than the grid and the grid size is a multiple of the step,
   * the cell `(0, 0, n)` just past the last z-plane is visited and read.
   */
  lemma PointModeReadsPastGrid(c: SliceConfig)
    requires c.skip > 0 && !c.average && 0 <= c.n < c.length && c.n % c.skip == 0
    ensures Pos(0, 0, c.n) in Positions(c)
    ensures !InGrid(Pos(0, 0, c.n), c.n)
  {
    PositionsExact(c, Pos(0, 0, c.n));
  }

  /**
   * Averaging does not guard the positions either: when the slice is longer
   * than the grid and the grid size is a multiple of the step, the position
   * `(0, 0, n)` is visited, its block is empty, and every outputter is told
   * to advance without any accumulate.
   */
  lemma AveragingEmptyBlock(c: SliceConfig, m: nat)
    requires c.skip > 0 && c.average && 0 <= c.n < c.length && c.n % c.skip == 0
    ensures Pos(0, 0, c.n) in Positions(c)
    ensures BlockCells(c, Pos(0, 0, c.n)) == []
    ensures SampleEvents(c, m, Pos(0, 0, c.n)) == Broadcast(m, Advance)
  {
    var p := Pos(0, 0, c.n);
    PositionsExact(c, p);
    assert BlockAxis(c, p.k) == [];
    assert BlockCells(c, p) == Product(BlockAxis(c, 0), BlockAxis(c, 0), []);
    ProductSize(BlockAxis(c, 0), BlockAxis(c, 0), []);
    assert CellAccs(c, m, BlockCells(c, p)) == [];
    assert SampleEvents(c, m, p) == [] + Broadcast(m, Advance);
  }

  /**
   * Two cycles differ only in the counter passed to `begin`: the traversal
   * does not depend on it.
   */
  lemma CycleDependsOnBinOnlyInBegin(c: SliceConfig, m: nat, bin1: int, bin2: int)
    requires c.skip > 0 && m > 0
    ensures |CycleTrace(c, m, bin1)| == |CycleTrace(c, m, bin2)|
    ensures forall t :: 0 <= t < |CycleTrace(c, m, bin1)| && !(1 <= t <= m) ==>
              CycleTrace(c, m, bin1)[t] == CycleTrace(c, m, bin2)[t]
  {
    var body := EventsAt(c, m, Positions(c));
    var head1, head2 := [GradientCompute] + Broadcast(m, Begin(bin1)), [GradientCompute] + Broadcast(m, Begin(bin2));
    assert CycleTrace(c, m, bin1) == head1 + body;
    assert CycleTrace(c, m, bin2) == head2 + body;
    forall t | 0 <= t < |CycleTrace(c, m, bin1)| && !(1 <= t <= m)
      ensures CycleTrace(c, m, bin1)[t] == CycleTrace(c, m, bin2)[t]
    {
      if t == 0 {
        assert head1[0] == head2[0];
      } else {
        assert (head1 + body)[t] == body[t - |head1|];
        assert (head2 + body)[t] == body[t - |head2|];
      }
    }
  }
}
