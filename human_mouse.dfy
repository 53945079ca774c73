/**
 * `move_mouse_human` (src/human_mouse.rs:6-39): moves the pointer from a start
 * point to an end point along a cubic Bezier curve whose two inner control
 * points are the 1/3 and 2/3 points of the segment, each jittered by up to 20
 * pixels per axis, in 10 to 50 steps with a 5-15 ms pause after every move.
 *
 * The random offsets, the pauses and the `sqrt`-based step estimate are chosen
 * nondeterministically inside the ranges the code samples from; the curve is
 * evaluated over `real` (the code uses `f64`) and truncated toward zero to
 * `i32`, as Rust's `as i32` does.
 */
module HumanMouse {
  import opened Geometry
  import opened Events

  const JitterPx: int := 20
  const MinSteps: int := 10
  const MaxSteps: int := 50
  const MinPauseMs: int := 5
  const MaxPauseMs: int := 15

  /** Rust's `/` on integers: the quotient rounded toward zero. */
  function TruncDiv(a: int, d: int): (q: int)
    requires d > 0
    ensures a >= 0 ==> 0 <= a - q * d < d
    ensures a < 0 ==> -d < a - q * d <= 0
  {
    if a >= 0 then a / d else -((-a) / d)
  }

  /** Rust's `f64 as i32` (ignoring saturation): the real truncated toward zero. */
  function TruncReal(r: real): (q: int)
    ensures r >= 0.0 ==> q >= 0 && q as real <= r < q as real + 1.0
    ensures r < 0.0 ==> q <= 0 && q as real - 1.0 < r <= q as real
  {
    if r >= 0.0 then r.Floor else -((-r).Floor)
  }

  /** The un-jittered control coordinate `s + k * (e - s) / 3` (k = 1 or 2) with truncating division. */
  function ControlBase(s: int, e: int, k: int): int
    requires k == 1 || k == 2
  {
    s + TruncDiv(k * (e - s), 3)
  }

  /** The control base lies on the segment and is within one pixel of the exact k/3 point. */
  lemma ControlBaseSpec(s: int, e: int, k: int)
    requires k == 1 || k == 2
    ensures Min(s, e) <= ControlBase(s, e, k) <= Max(s, e)
    ensures -3 < 3 * (ControlBase(s, e, k) - s) - k * (e - s) < 3
  {
    var q := TruncDiv(k * (e - s), 3);
    if e >= s {
      assert 0 <= k * (e - s) <= 2 * (e - s);
    } else {
      assert 2 * (e - s) <= k * (e - s) < 0;
    }
  }

  /** `steps.max(10).min(50)`: the step estimate clamped into [10, 50]. */
  function StepCount(raw: int): (n: int)
    ensures MinSteps <= n <= MaxSteps
    ensures MinSteps <= raw <= MaxSteps ==> n == raw
  {
    Min(Max(raw, MinSteps), MaxSteps)
  }

  /** The cubic Bezier curve through control values p0..p3 at parameter `t`. */
  function Bezier(p0: int, p1: int, p2: int, p3: int, t: real): real {
    var u := 1.0 - t;
    u * u * u * p0 as real + 3.0 * u * u * t * p1 as real + 3.0 * u * t * t * p2 as real + t * t * t * p3 as real
  }

  function Min4(a: int, b: int, c: int, d: int): int { Min(Min(a, b), Min(c, d)) }
  function Max4(a: int, b: int, c: int, d: int): int { Max(Max(a, b), Max(c, d)) }

  /** The curve starts exactly at `p0` and ends exactly at `p3`. */
  lemma BezierEnds(p0: int, p1: int, p2: int, p3: int)
    ensures Bezier(p0, p1, p2, p3, 0.0) == p0 as real
    ensures Bezier(p0, p1, p2, p3, 1.0) == p3 as real
  {
  }

  lemma MulNonneg(a: real, b: real)
    requires a >= 0.0 && b >= 0.0
    ensures a * b >= 0.0
  {
  }

  /** The Bernstein weights of a cubic are non-negative and sum to one on [0, 1]. */
  lemma BernsteinWeights(t: real)
    requires 0.0 <= t <= 1.0
    ensures var u := 1.0 - t;
      u * u * u >= 0.0 && 3.0 * u * u * t >= 0.0 && 3.0 * u * t * t >= 0.0 && t * t * t >= 0.0 &&
      u * u * u + 3.0 * u * u * t + 3.0 * u * t * t + t * t * t == 1.0
  {
    var u := 1.0 - t;
    MulNonneg(u, u);
    MulNonneg(u * u, u);
    MulNonneg(u * u, t);
    MulNonneg(u, t);
    MulNonneg(u * t, t);
    MulNonneg(t, t);
    MulNonneg(t * t, t);
    assert (u + t) * (u + t) * (u + t) == u * u * u + 3.0 * u * u * t + 3.0 * u * t * t + t * t * t;
  }

  /** A convex combination with weights w of values in [m, M] stays in [m, M]. */
  lemma ConvexBetween(w0: real, w1: real, w2: real, w3: real, a0: real, a1: real, a2: real, a3: real, m: real, M: real)
    requires w0 >= 0.0 && w1 >= 0.0 && w2 >= 0.0 && w3 >= 0.0 && w0 + w1 + w2 + w3 == 1.0
    requires m <= a0 <= M && m <= a1 <= M && m <= a2 <= M && m <= a3 <= M
    ensures m <= w0 * a0 + w1 * a1 + w2 * a2 + w3 * a3 <= M
  {
    MulNonneg(w0, a0 - m); MulNonneg(w1, a1 - m); MulNonneg(w2, a2 - m); MulNonneg(w3, a3 - m);
    MulNonneg(w0, M - a0); MulNonneg(w1, M - a1); MulNonneg(w2, M - a2); MulNonneg(w3, M - a3);
    assert w0 * a0 + w1 * a1 + w2 * a2 + w3 * a3 - m
        == w0 * (a0 - m) + w1 * (a1 - m) + w2 * (a2 - m) + w3 * (a3 - m);
    assert M - (w0 * a0 + w1 * a1 + w2 * a2 + w3 * a3)
        == w0 * (M - a0) + w1 * (M - a1) + w2 * (M - a2) + w3 * (M - a3);
  }

  lemma RealBetween(a: int, m: int, M: int)
    requires m <= a <= M
    ensures m as real <= a as real <= M as real
  {
  }

  /** On [0, 1] the curve stays within any range that holds all four control values. */
  lemma BezierBetween(p0: int, p1: int, p2: int, p3: int, t: real, m: int, M: int)
    requires 0.0 <= t <= 1.0
    requires m <= p0 <= M && m <= p1 <= M && m <= p2 <= M && m <= p3 <= M
    ensures m as real <= Bezier(p0, p1, p2, p3, t) <= M as real
  {
    var u := 1.0 - t;
    var w0, w1, w2, w3 := u * u * u, 3.0 * u * u * t, 3.0 * u * t * t, t * t * t;
    var r0, r1, r2, r3 := p0 as real, p1 as real, p2 as real, p3 as real;
    BernsteinWeights(t);
    RealBetween(p0, m, M); RealBetween(p1, m, M); RealBetween(p2, m, M); RealBetween(p3, m, M);
    ConvexBetween(w0, w1, w2, w3, r0, r1, r2, r3, m as real, M as real);
  }

  /** On [0, 1] the curve stays between the smallest and the largest control value. */
  lemma BezierHull(p0: int, p1: int, p2: int, p3: int, t: real)
    requires 0.0 <= t <= 1.0
    ensures Min4(p0, p1, p2, p3) as real <= Bezier(p0, p1, p2, p3, t) <= Max4(p0, p1, p2, p3) as real
  {
    BezierBetween(p0, p1, p2, p3, t, Min4(p0, p1, p2, p3), Max4(p0, p1, p2, p3));
  }

  /** Truncating a real that lies between two integers keeps it between them. */
  lemma TruncBetween(r: real, m: int, M: int)
    requires m as real <= r <= M as real
    ensures m <= TruncReal(r) <= M
  {
  }

  /** The smallest region holding the four control points of a path. */
  function Hull(start: Point, c1: Point, c2: Point, end: Point): Bounds {
    Bounds(Min4(start.x, c1.x, c2.x, end.x), Max4(start.x, c1.x, c2.x, end.x),
           Min4(start.y, c1.y, c2.y, end.y), Max4(start.y, c1.y, c2.y, end.y))
  }

  /** The pixel the pointer is moved to at step `i` of `steps`: the curve at `t = i / steps`, truncated. */
  function PathPoint(start: Point, c1: Point, c2: Point, end: Point, steps: int, i: int): Point
    requires steps > 0
  {
    var t := i as real / steps as real;
    Point(TruncReal(Bezier(start.x, c1.x, c2.x, end.x, t)), TruncReal(Bezier(start.y, c1.y, c2.y, end.y, t)))
  }

  lemma DivSelf(x: real)
    requires x > 0.0
    ensures x / x == 1.0
  {
  }

  /** Step 0 is the start, step `steps` the end, and every step lies inside the control-point hull. */
  lemma PathPointSpec(start: Point, c1: Point, c2: Point, end: Point, steps: int, i: int)
    requires 0 < steps && 0 <= i <= steps
    ensures i == 0 ==> PathPoint(start, c1, c2, end, steps, i) == start
    ensures i == steps ==> PathPoint(start, c1, c2, end, steps, i) == end
    ensures Hull(start, c1, c2, end).Contains(PathPoint(start, c1, c2, end, steps, i))
  {
    var t := i as real / steps as real;
    assert 0.0 <= t <= 1.0;
    if i == 0 {
      assert t == 0.0;
      BezierEnds(start.x, c1.x, c2.x, end.x);
      BezierEnds(start.y, c1.y, c2.y, end.y);
    }
    if i == steps {
      DivSelf(steps as real);
      assert t == 1.0;
      BezierEnds(start.x, c1.x, c2.x, end.x);
      BezierEnds(start.y, c1.y, c2.y, end.y);
    }
    BezierHull(start.x, c1.x, c2.x, end.x, t);
    BezierHull(start.y, c1.y, c2.y, end.y, t);
    TruncBetween(Bezier(start.x, c1.x, c2.x, end.x, t), Min4(start.x, c1.x, c2.x, end.x), Max4(start.x, c1.x, c2.x, end.x));
    TruncBetween(Bezier(start.y, c1.y, c2.y, end.y, t), Min4(start.y, c1.y, c2.y, end.y), Max4(start.y, c1.y, c2.y, end.y));
  }

  /** Every step of the path satisfies `PathPointSpec`. */
  lemma PathPointsSpec(start: Point, c1: Point, c2: Point, end: Point, steps: int)
    requires 0 < steps
    ensures PathPoint(start, c1, c2, end, steps, 0) == start
    ensures PathPoint(start, c1, c2, end, steps, steps) == end
    ensures forall i :: 0 <= i <= steps ==> Hull(start, c1, c2, end).Contains(PathPoint(start, c1, c2, end, steps, i))
  {
    forall i | 0 <= i <= steps
      ensures Hull(start, c1, c2, end).Contains(PathPoint(start, c1, c2, end, steps, i))
    {
      PathPointSpec(start, c1, c2, end, steps, i);
    }
    PathPointSpec(start, c1, c2, end, steps, 0);
    PathPointSpec(start, c1, c2, end, steps, steps);
  }

  /**
   * The `steps + 1` pixels visited, for `i = 0..=steps`: exactly the start first and
   * exactly the end last, all inside the hull of the control points.
   */
  function Path(start: Point, c1: Point, c2: Point, end: Point, steps: int): (r: seq<Point>)
    requires 0 < steps
    ensures |r| == steps + 1
    ensures forall i :: 0 <= i <= steps ==> r[i] == PathPoint(start, c1, c2, end, steps, i)
    ensures r[0] == start && r[steps] == end
    ensures forall p :: p in r ==> Hull(start, c1, c2, end).Contains(p)
  {
    PathPointsSpec(start, c1, c2, end, steps);
    seq(steps + 1, i requires 0 <= i <= steps => PathPoint(start, c1, c2, end, steps, i))
  }

  /** A control point: the base point of its axis plus an offset in [-20, 20]. */
  predicate JitteredControl(c: Point, start: Point, end: Point, k: int)
    requires k == 1 || k == 2
  {
    -JitterPx <= c.x - ControlBase(start.x, end.x, k) <= JitterPx &&
    -JitterPx <= c.y - ControlBase(start.y, end.y, k) <= JitterPx
  }

  /**
   * `trace` is what the first `n` rounds of the move loop leave behind: a move to
   * `path[k]` followed by a 5..=15 ms pause, for each `k < n`.
   */
  predicate MovesSoFar(trace: seq<Event>, path: seq<Point>, n: nat)
  {
    n <= |path| && |trace| == 2 * n &&
    (forall k :: 0 <= k < n ==>
      trace[2 * k] == MoveTo(path[k]) &&
      trace[2 * k + 1].Sleep? && MinPauseMs <= trace[2 * k + 1].ms <= MaxPauseMs)
  }

  /** One more round keeps `MovesSoFar`, adds no click and adds the pause to the sleep total. */
  lemma {:induction false} MovesSoFarSnoc(trace: seq<Event>, path: seq<Point>, n: nat, pause: int)
    requires MovesSoFar(trace, path, n) && n < |path|
    requires MinPauseMs <= pause <= MaxPauseMs
    ensures MovesSoFar(trace + [MoveTo(path[n]), Sleep(pause)], path, n + 1)
    ensures ClickLog(trace + [MoveTo(path[n]), Sleep(pause)]) == ClickLog(trace)
    ensures SleepTotal(trace + [MoveTo(path[n]), Sleep(pause)]) == SleepTotal(trace) + pause
  {
    var t := trace + [MoveTo(path[n]), Sleep(pause)];
    forall k | 0 <= k < n + 1
      ensures t[2 * k] == MoveTo(path[k]) && t[2 * k + 1].Sleep? && MinPauseMs <= t[2 * k + 1].ms <= MaxPauseMs
    {
      if k < n {
        assert t[2 * k] == trace[2 * k] && t[2 * k + 1] == trace[2 * k + 1];
      }
    }
    ClickLogAppend(trace, [MoveTo(path[n]), Sleep(pause)]);
    SleepTotalAppend(trace, [MoveTo(path[n]), Sleep(pause)]);
    assert [MoveTo(path[n]), Sleep(pause)][..1] == [MoveTo(path[n])];
    assert [MoveTo(path[n])][..0] == [];
    assert SleepTotal([MoveTo(path[n])]) == 0;
    assert ClickLog([MoveTo(path[n])]) == [];
    assert ClickLog([MoveTo(path[n]), Sleep(pause)]) == [];
  }

  /** Every pointer move in a trace built by `MovesSoFar` goes to a point of the path. */
  lemma MovesSoFarTargets(trace: seq<Event>, path: seq<Point>, n: nat)
    requires MovesSoFar(trace, path, n)
    ensures forall e :: e in trace && e.MoveTo? ==> e.p in path
  {
    forall e | e in trace && e.MoveTo?
      ensures e.p in path
    {
      var j :| 0 <= j < |trace| && trace[j] == e;
      assert trace[2 * (j / 2)] == e;
    }
  }

  /**
   * The move loop. Besides the trace of pointer moves and pauses it returns the
   * control points and the step count it picked, so that its contract can say
   * which curve the moves follow.
   */
  method MoveMouseHuman(start: Point, end: Point) returns (trace: seq<Event>, c1: Point, c2: Point, steps: int)
    ensures JitteredControl(c1, start, end, 1) && JitteredControl(c2, start, end, 2)
    ensures MinSteps <= steps <= MaxSteps
    ensures |trace| == 2 * (steps + 1)
    ensures forall i :: 0 <= i <= steps ==>
      trace[2 * i] == MoveTo(Path(start, c1, c2, end, steps)[i]) &&
      trace[2 * i + 1].Sleep? && MinPauseMs <= trace[2 * i + 1].ms <= MaxPauseMs
    ensures trace[0] == MoveTo(start) && trace[2 * steps] == MoveTo(end)
    ensures forall e :: e in trace && e.MoveTo? ==> Hull(start, c1, c2, end).Contains(e.p)
    ensures 5 * (steps + 1) <= SleepTotal(trace) <= 15 * (steps + 1)
    ensures 55 <= SleepTotal(trace) <= 765
    ensures ClickLog(trace) == []
  {
    var o1x :| -JitterPx <= o1x <= JitterPx;
    var o1y :| -JitterPx <= o1y <= JitterPx;
    var o2x :| -JitterPx <= o2x <= JitterPx;
    var o2y :| -JitterPx <= o2y <= JitterPx;
    c1 := Point(ControlBase(start.x, end.x, 1) + o1x, ControlBase(start.y, end.y, 1) + o1y);
    c2 := Point(ControlBase(start.x, end.x, 2) + o2x, ControlBase(start.y, end.y, 2) + o2y);

    // `(sqrt(dx^2 + dy^2) / 2.0) as i32`: some non-negative integer
    var raw: int :| raw >= 0;
    steps := StepCount(raw);

    var path := Path(start, c1, c2, end, steps);
    trace := [];
    var i := 0;
    while i <= steps
      invariant 0 <= i <= steps + 1
      invariant MovesSoFar(trace, path, i)
      invariant 5 * i <= SleepTotal(trace) <= 15 * i
      invariant ClickLog(trace) == []
    {
      var pause :| MinPauseMs <= pause <= MaxPauseMs;
      MovesSoFarSnoc(trace, path, i, pause);
      trace := trace + [MoveTo(path[i]), Sleep(pause)];
      i := i + 1;
    }
    MovesSoFarTargets(trace, path, i);
  }
}
