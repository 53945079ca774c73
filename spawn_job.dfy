/**
 * The worker of the cursor-based `ClickJob::spawn` in spawn_temp.rs (lines
 * 10-133). Unlike the other variants it keeps its place in the sequence in the
 * configuration itself (`current_action`), counts the clicks the current action
 * has had and the cycles completed, and reaches each click point with a jump
 * for the first click of the job and a human-like move from the previous click
 * after that.
 *
 * The worker re-reads the configuration under the lock at every iteration; the
 * model holds it fixed for the whole run, apart from the cursor the worker
 * writes back. With the configuration fixed, the branch an iteration takes is
 * the same every time, so the loop is modelled as one loop per branch.
 */
module SpawnJob {
  import opened Wrappers
  import opened Geometry
  import opened Events

  /** The pause of an iteration that has nothing to click, in milliseconds. */
  const IdleMs: int := 200

  /** A sequence action. Delays are in milliseconds, as `(secs * 1000.0) as u64` yields them. */
  datatype Action = Action(bounds: Bounds, button: Button, minMs: nat, maxMs: nat, clicksPerCycle: nat)

  /**
   * `ClickConfig` as the worker sees it. `currentAction` is the sequence cursor,
   * which the worker advances and leaves behind for the next job.
   */
  datatype Config = Config(bounds: Option<Bounds>, button: Button, minMs: nat, maxMs: nat,
                           finiteClicks: Option<nat>, sequenceMode: bool, sequence: seq<Action>,
                           currentAction: nat, sequenceCycles: Option<nat>)

  /* ----------------------------- Traces ----------------------------- */

  /** Where the last click of `cs` happened (`last_pos`), if there was one. */
  function LastAt(cs: seq<ClickAt>): Option<Point> {
    if cs == [] then None else Some(cs[|cs| - 1].at)
  }

  /**
   * One click round: the first click of a job jumps straight to its point; a
   * later one puts the pointer back on the previous click and moves human-like
   * from there. Then the click, then the sampled delay.
   */
  function Round(last: Option<Point>, c: ClickAt, d: int): seq<Event> {
    match last
    case None => [MoveTo(c.at), Click(c.at, c.button), Sleep(d)]
    case Some(p) => [MoveTo(p), HumanMove(p, c.at), Click(c.at, c.button), Sleep(d)]
  }

  /** The trace of a job that clicked `cs`, in order, with the delays `ds`. */
  function ClickRounds(cs: seq<ClickAt>, ds: seq<int>): seq<Event>
    requires |cs| == |ds|
    decreases |cs|
  {
    if cs == [] then []
    else ClickRounds(cs[..|cs| - 1], ds[..|ds| - 1]) + Round(LastAt(cs[..|cs| - 1]), cs[|cs| - 1], ds[|ds| - 1])
  }

  /** The trace of `n` idle iterations. */
  function Idles(n: nat): seq<Event> {
    if n == 0 then [] else Idles(n - 1) + [Sleep(IdleMs)]
  }

  lemma OneEvent(e: Event)
    ensures ClickLog([e]) == ClicksOf(e)
    ensures SleepTotal([e]) == if e.Sleep? then e.ms else 0
  {
    assert [e][..0] == [];
  }

  /** A round clicks once, where it says, and sleeps exactly its delay. */
  lemma RoundFacts(last: Option<Point>, c: ClickAt, d: int)
    ensures ClickLog(Round(last, c, d)) == [c]
    ensures SleepTotal(Round(last, c, d)) == d
  {
    var approach := if last.Some? then [MoveTo(last.value), HumanMove(last.value, c.at)] else [MoveTo(c.at)];
    var click, rest := [Click(c.at, c.button)], [Sleep(d)];
    assert Round(last, c, d) == approach + click + rest;
    OneEvent(MoveTo(c.at));
    if last.Some? {
      OneEvent(MoveTo(last.value));
      OneEvent(HumanMove(last.value, c.at));
      ClickLogAppend([MoveTo(last.value)], [HumanMove(last.value, c.at)]);
      SleepTotalAppend([MoveTo(last.value)], [HumanMove(last.value, c.at)]);
      assert [MoveTo(last.value)] + [HumanMove(last.value, c.at)] == approach;
    }
    assert ClickLog(approach) == [] && SleepTotal(approach) == 0;
    OneEvent(Click(c.at, c.button));
    OneEvent(Sleep(d));
    ClickLogAppend(approach, click);
    ClickLogAppend(approach + click, rest);
    SleepTotalAppend(approach, click);
    SleepTotalAppend(approach + click, rest);
  }

  lemma ClickRoundsSnoc(cs: seq<ClickAt>, ds: seq<int>, c: ClickAt, d: int)
    requires |cs| == |ds|
    ensures ClickRounds(cs + [c], ds + [d]) == ClickRounds(cs, ds) + Round(LastAt(cs), c, d)
  {
    assert (cs + [c])[..|cs|] == cs && (ds + [d])[..|ds|] == ds;
  }

  lemma LogSnoc(front: seq<Event>, r: seq<Event>, cs: seq<ClickAt>, c: ClickAt)
    requires ClickLog(front) == cs && ClickLog(r) == [c]
    ensures ClickLog(front + r) == cs + [c]
  {
    ClickLogAppend(front, r);
  }

  lemma LastSplit(cs: seq<ClickAt>)
    requires cs != []
    ensures cs[..|cs| - 1] + [cs[|cs| - 1]] == cs
  {
  }

  /** The trace of a clicking job holds exactly the clicks it performed, in order. */
  lemma {:induction false} ClickRoundsLog(cs: seq<ClickAt>, ds: seq<int>)
    requires |cs| == |ds|
    ensures ClickLog(ClickRounds(cs, ds)) == cs
    decreases |cs|
  {
    if cs != [] {
      var n := |cs| - 1;
      var pc, pd := cs[..n], ds[..n];
      ClickRoundsLog(pc, pd);
      RoundFacts(LastAt(pc), cs[n], ds[n]);
      LogSnoc(ClickRounds(pc, pd), Round(LastAt(pc), cs[n], ds[n]), pc, cs[n]);
      LastSplit(cs);
    }
  }

  /** The trace of a clicking job sleeps exactly the sampled delays. */
  lemma {:induction false} ClickRoundsSleep(cs: seq<ClickAt>, ds: seq<int>)
    requires |cs| == |ds|
    ensures SleepTotal(ClickRounds(cs, ds)) == Sum(ds)
    decreases |cs|
  {
    if cs != [] {
      var n := |cs| - 1;
      var front, r := ClickRounds(cs[..n], ds[..n]), Round(LastAt(cs[..n]), cs[n], ds[n]);
      assert ClickRounds(cs, ds) == front + r;
      ClickRoundsSleep(cs[..n], ds[..n]);
      RoundFacts(LastAt(cs[..n]), cs[n], ds[n]);
      SleepTotalAppend(front, r);
      assert Sum(ds) == Sum(ds[..n]) + ds[n];
    }
  }

  /** Every click of a clicking job is preceded by a pointer move to that very point. */
  lemma {:induction false} ClickRoundsApproach(cs: seq<ClickAt>, ds: seq<int>, k: nat)
    requires |cs| == |ds| && k < |ClickRounds(cs, ds)|
    requires ClickRounds(cs, ds)[k].Click?
    ensures 0 < k
    ensures var t := ClickRounds(cs, ds);
      (t[k - 1].MoveTo? && t[k - 1].p == t[k].at) || (t[k - 1].HumanMove? && t[k - 1].to == t[k].at)
    decreases |cs|
  {
    var n := |cs| - 1;
    var front, r := ClickRounds(cs[..n], ds[..n]), Round(LastAt(cs[..n]), cs[n], ds[n]);
    assert ClickRounds(cs, ds) == front + r;
    if k < |front| {
      ClickRoundsApproach(cs[..n], ds[..n], k);
    } else {
      assert r[k - |front|].Click?;
    }
  }

  /** Idling clicks nothing and sleeps 200 ms per iteration. */
  lemma {:induction false} IdlesFacts(n: nat)
    ensures ClickLog(Idles(n)) == []
    ensures SleepTotal(Idles(n)) == IdleMs * n
  {
    if n > 0 {
      IdlesFacts(n - 1);
      assert Idles(n) == Idles(n - 1) + [Sleep(IdleMs)];
      OneEvent(Sleep(IdleMs));
      ClickLogAppend(Idles(n - 1), [Sleep(IdleMs)]);
      SleepTotalAppend(Idles(n - 1), [Sleep(IdleMs)]);
    }
  }

  /* ----------------------------- Rounds ----------------------------- */

  /** `u32::saturating_sub(1)`. */
  function SatDec(n: nat): nat { if n == 0 then 0 else n - 1 }

  /** A point sampled in `b` (`gen_range(min..=max)` on each axis). */
  method SamplePoint(b: Bounds) returns (p: Point)
    requires b.NonEmpty()
    ensures b.Contains(p)
  {
    var x :| b.minX <= x <= b.maxX;
    var y :| b.minY <= y <= b.maxY;
    p := Point(x, y);
  }

  /**
   * One click round of either mode: a point sampled in the target's region,
   * reached from `last`, clicked, then a delay sampled from the target's range.
   */
  method ClickOnce(t: Target, last: Option<Point>) returns (ev: seq<Event>, c: ClickAt, d: int)
    requires t.bounds.NonEmpty() && t.lo <= t.hi
    ensures Hits(c, t) && t.lo <= d <= t.hi
    ensures ev == Round(last, c, d)
  {
    var p := SamplePoint(t.bounds);
    var approach := if last.Some? then [MoveTo(last.value), HumanMove(last.value, p)] else [MoveTo(p)];
    c := ClickAt(p, t.button);
    d :| t.lo <= d <= t.hi;
    ev := approach + [Click(p, t.button)] + [Sleep(d)];
  }

  /**
   * An iteration with nothing to click, repeated until the flag reads `false`:
   * only the finite-click check at the top of the loop ends it, and only when
   * the count is `Some(0)`.
   */
  method IdleLoop(flag: Flag, finite: Option<nat>) returns (trace: seq<Event>, loads: nat, exit: Exit)
    ensures loads >= 1 && trace == Idles(loads - 1)
    ensures exit == Cancelled <==> loads == flag.stopAfter + 1
    ensures exit == Finished <==> finite == Some(0) && flag.stopAfter > 0
    ensures exit == Finished ==> loads == 1
  {
    trace, loads := [], 0;
    while true
      invariant loads <= flag.stopAfter && trace == Idles(loads)
      invariant finite == Some(0) ==> loads == 0
      decreases flag.stopAfter - loads
    {
      if !flag.Load(loads) {
        loads, exit := loads + 1, Cancelled;
        return;
      }
      loads := loads + 1;
      if finite == Some(0) {
        exit := Finished;
        return;
      }
      trace := trace + [Sleep(IdleMs)];
    }
  }

  /* --------------------------- Single mode --------------------------- */

  /** The click single mode aims at. */
  function SingleTarget(b: Bounds, button: Button, minMs: nat, maxMs: nat): Target {
    Target(b, button, minMs, maxMs)
  }

  /**
   * Single mode over valid bounds: a click round per iteration, the finite-click
   * count decremented (saturating) after each click. `Some(n)` gives exactly
   * `n` clicks unless the flag is cleared first; the job then ends at the top of
   * the next iteration.
   */
  method RunSingle(flag: Flag, t: Target, finite: Option<nat>)
    returns (trace: seq<Event>, clicks: seq<ClickAt>, delays: seq<int>, loads: nat, exit: Exit, last: Option<Point>)
    requires t.bounds.IsValid() && t.lo <= t.hi
    ensures |clicks| == |delays| && trace == ClickRounds(clicks, delays)
    ensures Follows(clicks, delays, Rep(t, |clicks|))
    ensures last == LastAt(clicks)
    ensures loads == |clicks| + 1
    ensures exit == Cancelled <==> loads == flag.stopAfter + 1
    ensures exit == Finished <==> finite.Some? && finite.value < flag.stopAfter
    ensures exit == Finished ==> |clicks| == finite.value
    ensures finite.Some? ==> |clicks| <= finite.value
  {
    trace, clicks, delays, loads, last := [], [], [], 0, None;
    var remaining := finite;
    while true
      invariant loads == |clicks| <= flag.stopAfter
      invariant |clicks| == |delays| && trace == ClickRounds(clicks, delays) && last == LastAt(clicks)
      invariant Follows(clicks, delays, Rep(t, |clicks|))
      invariant remaining.Some? <==> finite.Some?
      invariant finite.Some? ==> |clicks| <= finite.value && remaining.value == finite.value - |clicks|
      decreases flag.stopAfter - loads
    {
      if !flag.Load(loads) {
        loads, exit := loads + 1, Cancelled;
        return;
      }
      loads := loads + 1;
      if remaining == Some(0) {
        exit := Finished;
        return;
      }
      var ev, c, d := ClickOnce(t, last);
      ClickRoundsSnoc(clicks, delays, c, d);
      FollowsSnoc(clicks, delays, Rep(t, |clicks|), c, d, t);
      RepSnoc(t, |clicks|);
      trace, clicks, delays, last := trace + ev, clicks + [c], delays + [d], Some(c.at);
      if remaining.Some? {
        remaining := Some(SatDec(remaining.value));
      }
    }
  }

  /* -------------------------- Sequence mode -------------------------- */

  /** An action that is clicked at all can be sampled. */
  predicate Sampleable(a: Action) {
    a.clicksPerCycle > 0 ==> a.bounds.NonEmpty() && a.minMs <= a.maxMs
  }

  function ActionTarget(a: Action): Target { Target(a.bounds, a.button, a.minMs, a.maxMs) }

  /** The clicks one action gets per cycle. */
  function ActionPlan(a: Action): seq<Target> { Rep(ActionTarget(a), a.clicksPerCycle) }

  function ActionPlans(acts: seq<Action>): (r: seq<seq<Target>>)
    ensures |r| == |acts| && forall i :: 0 <= i < |acts| ==> r[i] == ActionPlan(acts[i])
  {
    seq(|acts|, i requires 0 <= i < |acts| => ActionPlan(acts[i]))
  }

  /** The clicks of the actions from `s` to the end of the sequence. */
  function From(acts: seq<Action>, s: nat): seq<Target>
    requires s <= |acts|
  {
    Flatten(ActionPlans(acts)[s..])
  }

  /**
   * The clicks of the first `k` cycles of a run whose cursor started at `c0`:
   * the rest of the sequence from `c0`, then whole cycles.
   */
  function Cycles(acts: seq<Action>, c0: nat, k: nat): seq<Target>
    requires c0 <= |acts|
  {
    if k == 0 then [] else From(acts, c0) + Repeat(From(acts, 0), k - 1)
  }

  /** Where the cycle under way started: at `c0` for the first cycle, at 0 after a wrap. */
  function CycleStart(c0: nat, k: nat): nat { if k == 0 then c0 else 0 }

  /**
   * A cursor the worker can hold: `k` cycles completed, at action `i`, which
   * has had `j` clicks, no more than it is owed.
   */
  predicate ValidCursor(acts: seq<Action>, c0: nat, k: nat, i: nat, j: nat) {
    c0 < |acts| && CycleStart(c0, k) <= i < |acts| && j <= acts[i].clicksPerCycle
  }

  /** The clicks owed in a cycle that started at action `s`, up to `j` clicks of action `i`. */
  function Partial(acts: seq<Action>, s: nat, i: nat, j: nat): seq<Target>
    requires s <= i < |acts|
  {
    Flatten(ActionPlans(acts)[s..i]) + Rep(ActionTarget(acts[i]), j)
  }

  /**
   * The clicks a run owes up to cursor `(k, i, j)`: `k` cycles, the actions of
   * the cycle under way before `i`, and `j` clicks of action `i`.
   */
  function Done(acts: seq<Action>, c0: nat, k: nat, i: nat, j: nat): seq<Target>
    requires ValidCursor(acts, c0, k, i, j)
  {
    Cycles(acts, c0, k) + Partial(acts, CycleStart(c0, k), i, j)
  }

  lemma FlattenSliceSnoc(parts: seq<seq<Target>>, s: nat, i: nat)
    requires s <= i < |parts|
    ensures Flatten(parts[s..i + 1]) == Flatten(parts[s..i]) + parts[i]
  {
    assert parts[s..i + 1][..i - s] == parts[s..i];
  }

  lemma PrefixAppend(a: seq<Target>, b: seq<Target>, c: seq<Target>)
    requires |b| <= |c| && c[..|b|] == b
    ensures |a + b| <= |a + c| && (a + c)[..|a + b|] == a + b
  {
    assert (a + c)[..|a + b|] == a + c[..|b|];
  }

  /** A cycle more: the cycles so far, then the sequence from where the cycle under way started. */
  lemma CyclesSnoc(acts: seq<Action>, c0: nat, k: nat)
    requires c0 <= |acts|
    ensures Cycles(acts, c0, k + 1) == Cycles(acts, c0, k) + From(acts, CycleStart(c0, k))
  {
    if k > 0 {
      var p := From(acts, 0);
      assert Repeat(p, k) == Repeat(p, k - 1) + p;
    } else {
      assert Cycles(acts, c0, 0) == [];
    }
  }

  /** A click at the cursor is owed by the plan, and makes the cursor's count one more. */
  lemma DoneClick(acts: seq<Action>, c0: nat, k: nat, i: nat, j: nat)
    requires ValidCursor(acts, c0, k, i, j) && j < acts[i].clicksPerCycle
    ensures ValidCursor(acts, c0, k, i, j + 1)
    ensures Done(acts, c0, k, i, j + 1) == Done(acts, c0, k, i, j) + [ActionTarget(acts[i])]
  {
    var t, c, f := ActionTarget(acts[i]), Cycles(acts, c0, k), Flatten(ActionPlans(acts)[CycleStart(c0, k)..i]);
    RepSnoc(t, j);
    assert c + (f + (Rep(t, j) + [t])) == (c + (f + Rep(t, j))) + [t];
  }

  /** The whole of action `i`: the actions before `i`, then action `i`'s clicks. */
  lemma PartialWhole(acts: seq<Action>, s: nat, i: nat)
    requires s <= i < |acts|
    ensures Partial(acts, s, i, acts[i].clicksPerCycle) == Flatten(ActionPlans(acts)[s..i + 1])
  {
    var ps := ActionPlans(acts);
    assert Rep(ActionTarget(acts[i]), acts[i].clicksPerCycle) == ps[i];
    FlattenSliceSnoc(ps, s, i);
  }

  /** An action that has had its clicks hands over to the next one. */
  lemma DoneAdvance(acts: seq<Action>, c0: nat, k: nat, i: nat)
    requires i < |acts| && ValidCursor(acts, c0, k, i, acts[i].clicksPerCycle) && i + 1 < |acts|
    ensures ValidCursor(acts, c0, k, i + 1, 0)
    ensures Done(acts, c0, k, i + 1, 0) == Done(acts, c0, k, i, acts[i].clicksPerCycle)
  {
    var s := CycleStart(c0, k);
    PartialWhole(acts, s, i);
    assert Partial(acts, s, i + 1, 0) == Flatten(ActionPlans(acts)[s..i + 1]) + [];
  }

  /** After the last action has had its clicks, the run has done exactly one cycle more. */
  lemma DoneWrap(acts: seq<Action>, c0: nat, k: nat)
    requires |acts| > 0 && ValidCursor(acts, c0, k, |acts| - 1, acts[|acts| - 1].clicksPerCycle)
    ensures Done(acts, c0, k, |acts| - 1, acts[|acts| - 1].clicksPerCycle) == Cycles(acts, c0, k + 1)
  {
    var ps, s, n := ActionPlans(acts), CycleStart(c0, k), |acts|;
    var part := Partial(acts, s, n - 1, acts[n - 1].clicksPerCycle);
    PartialWhole(acts, s, n - 1);
    assert ps[s..n] == ps[s..];
    assert part == From(acts, s);
    CyclesSnoc(acts, c0, k);
    assert Done(acts, c0, k, n - 1, acts[n - 1].clicksPerCycle) == Cycles(acts, c0, k) + part;
  }

  /** A cycle that starts afresh owes nothing yet beyond the cycles completed. */
  lemma DoneRestart(acts: seq<Action>, c0: nat, k: nat)
    requires c0 < |acts| && k > 0
    ensures ValidCursor(acts, c0, k, 0, 0) && Done(acts, c0, k, 0, 0) == Cycles(acts, c0, k)
  {
    assert ActionPlans(acts)[0..0] == [];
    assert Partial(acts, 0, 0, 0) == [];
  }

  /** The owed clicks of a cycle under way are a prefix of the whole cycle. */
  lemma PartialPrefix(acts: seq<Action>, s: nat, i: nat, j: nat)
    requires s <= i < |acts| && j <= acts[i].clicksPerCycle
    ensures var p, f := Partial(acts, s, i, j), From(acts, s); |p| <= |f| && f[..|p|] == p
  {
    var ps := ActionPlans(acts);
    var rest := ps[s..];
    FlattenPrefix(rest, i - s, j);
    assert rest[..i - s] == ps[s..i];
    assert rest[i - s][..j] == Rep(ActionTarget(acts[i]), j);
  }

  /** What a run owes at any cursor is a prefix of its cycles so far plus one. */
  lemma DonePrefix(acts: seq<Action>, c0: nat, k: nat, i: nat, j: nat)
    requires ValidCursor(acts, c0, k, i, j)
    ensures var d, c := Done(acts, c0, k, i, j), Cycles(acts, c0, k + 1); |d| <= |c| && c[..|d|] == d
  {
    var s := CycleStart(c0, k);
    PartialPrefix(acts, s, i, j);
    CyclesSnoc(acts, c0, k);
    PrefixAppend(Cycles(acts, c0, k), Partial(acts, s, i, j), From(acts, s));
  }

  /**
   * The iterations that only advance the cursor in `k` completed cycles from
   * `c0`: one per action of each cycle, the first cycle starting at `c0`.
   */
  function Advances(acts: seq<Action>, c0: nat, k: nat): nat
    requires c0 <= |acts|
  {
    if k == 0 then 0 else Advances(acts, c0, k - 1) + (|acts| - CycleStart(c0, k - 1))
  }

  /** The advancing iterations it took to bring the cursor to action `i` after `k` cycles. */
  function Moves(acts: seq<Action>, c0: nat, k: nat, i: nat): nat
    requires c0 <= |acts| && CycleStart(c0, k) <= i
  {
    Advances(acts, c0, k) + (i - CycleStart(c0, k))
  }

  /**
   * The flag reads a run from `c0` takes to complete `k` cycles when every read
   * is `true`: one per iteration, and each iteration either clicks once or
   * advances the cursor once.
   */
  function SequenceReads(acts: seq<Action>, c0: nat, k: nat): nat
    requires c0 <= |acts|
  {
    |Cycles(acts, c0, k)| + Advances(acts, c0, k)
  }

  /** More cycles owe more clicks and take more advances. */
  lemma {:induction false} SequenceReadsMono(acts: seq<Action>, c0: nat, a: nat, b: nat)
    requires c0 <= |acts| && a <= b
    ensures |Cycles(acts, c0, a)| <= |Cycles(acts, c0, b)| && Advances(acts, c0, a) <= Advances(acts, c0, b)
    decreases b
  {
    if a < b {
      SequenceReadsMono(acts, c0, a, b - 1);
      CyclesSnoc(acts, c0, b - 1);
    }
  }

  /**
   * A run whose cursor is short of its cycle limit has made fewer flag reads
   * than the limit needs.
   */
  lemma ShortOfLimit(acts: seq<Action>, c0: nat, k: nat, i: nat, j: nat, clicks: seq<ClickAt>, delays: seq<int>, m: nat)
    requires ValidCursor(acts, c0, k, i, j) && Follows(clicks, delays, Done(acts, c0, k, i, j)) && k < Max(m, 1)
    ensures |clicks| + Moves(acts, c0, k, i) < SequenceReads(acts, c0, Max(m, 1))
  {
    DonePrefix(acts, c0, k, i, j);
    SequenceReadsMono(acts, c0, k + 1, Max(m, 1));
  }

  /** The loop state of sequence mode: a valid cursor, and the clicks owed up to it performed. */
  predicate Progress(acts: seq<Action>, c0: nat, k: nat, i: nat, j: nat,
                     trace: seq<Event>, clicks: seq<ClickAt>, delays: seq<int>)
  {
    ValidCursor(acts, c0, k, i, j) && |clicks| == |delays| &&
    trace == ClickRounds(clicks, delays) && Follows(clicks, delays, Done(acts, c0, k, i, j))
  }

  /**
   * The advance of the cursor once action `i` has had its clicks
   * (spawn_temp.rs:43-63): on to the next action, or, after the last one, a
   * completed cycle, which ends the job once the cycle limit is reached and
   * otherwise wraps the cursor to 0. No click happens in such an iteration.
   */
  method Advance(acts: seq<Action>, c0: nat, k: nat, i: nat, maxCycles: Option<nat>)
    returns (k': nat, i': nat, finished: bool)
    requires i < |acts| && ValidCursor(acts, c0, k, i, acts[i].clicksPerCycle)
    requires maxCycles.Some? ==> k < Max(maxCycles.value, 1)
    ensures i + 1 < |acts| ==> !finished && k' == k && i' == i + 1
    ensures i + 1 == |acts| ==> k' == k + 1 && (finished <==> maxCycles.Some? && k' >= maxCycles.value)
    ensures finished ==>
      i' == i && maxCycles.Some? && k' == Max(maxCycles.value, 1) &&
      Done(acts, c0, k, i, acts[i].clicksPerCycle) == Cycles(acts, c0, k')
    ensures !finished ==>
      ValidCursor(acts, c0, k', i', 0) && Done(acts, c0, k', i', 0) == Done(acts, c0, k, i, acts[i].clicksPerCycle) &&
      (maxCycles.Some? ==> k' < Max(maxCycles.value, 1))
    ensures !finished ==> Moves(acts, c0, k', i') == Moves(acts, c0, k, i) + 1
    ensures finished ==> Advances(acts, c0, k') == Moves(acts, c0, k, i) + 1
  {
    k', i', finished := k, i, false;
    if i == |acts| - 1 {
      DoneWrap(acts, c0, k);
      DoneRestart(acts, c0, k + 1);
      k' := k + 1;
      if maxCycles.Some? && k' >= maxCycles.value {
        finished := true;
        return;
      }
      i' := 0;
    } else {
      DoneAdvance(acts, c0, k, i);
      i' := i + 1;
    }
  }

  /** A click round at the cursor: the target of action `i`, and one more click counted for it. */
  method ClickAtCursor(acts: seq<Action>, c0: nat, k: nat, i: nat, j: nat,
                       trace0: seq<Event>, clicks0: seq<ClickAt>, delays0: seq<int>, last0: Option<Point>)
    returns (trace: seq<Event>, clicks: seq<ClickAt>, delays: seq<int>, last: Option<Point>)
    requires Progress(acts, c0, k, i, j, trace0, clicks0, delays0) && last0 == LastAt(clicks0)
    requires j < acts[i].clicksPerCycle && Sampleable(acts[i])
    ensures Progress(acts, c0, k, i, j + 1, trace, clicks, delays) && last == LastAt(clicks)
    ensures |clicks| == |clicks0| + 1
  {
    var t := ActionTarget(acts[i]);
    var ev, c, d := ClickOnce(t, last0);
    ClickRoundsSnoc(clicks0, delays0, c, d);
    FollowsSnoc(clicks0, delays0, Done(acts, c0, k, i, j), c, d, t);
    DoneClick(acts, c0, k, i, j);
    trace, clicks, delays, last := trace0 + ev, clicks0 + [c], delays0 + [d], Some(c.at);
  }

  /** Whatever the cursor, the clicks so far follow a prefix of the cycles completed plus one. */
  lemma OwedPrefix(acts: seq<Action>, c0: nat, k: nat, i: nat, j: nat,
                   trace: seq<Event>, clicks: seq<ClickAt>, delays: seq<int>)
    requires Progress(acts, c0, k, i, j, trace, clicks, delays)
    ensures FollowsPrefix(clicks, delays, Cycles(acts, c0, k + 1))
  {
    DonePrefix(acts, c0, k, i, j);
    FollowsIsPrefix(clicks, delays, Done(acts, c0, k, i, j));
    FollowsPrefixMono(clicks, delays, Done(acts, c0, k, i, j), Cycles(acts, c0, k + 1));
  }

  /**
   * Clicks that have paid everything owed up to the end of the last action
   * complete cycle `k + 1`, are on the way to cycle `k + 2`, and took the reads
   * of `k + 1` cycles, the wrap's own read included.
   */
  lemma FinishedAtWrap(acts: seq<Action>, c0: nat, k: nat, i: nat, j: nat,
                       trace: seq<Event>, clicks: seq<ClickAt>, delays: seq<int>)
    requires Progress(acts, c0, k, i, j, trace, clicks, delays)
    requires i == |acts| - 1 && j == acts[i].clicksPerCycle
    requires Advances(acts, c0, k + 1) == Moves(acts, c0, k, i) + 1
    ensures Follows(clicks, delays, Cycles(acts, c0, k + 1)) && FollowsPrefix(clicks, delays, Cycles(acts, c0, k + 2))
    ensures SequenceReads(acts, c0, k + 1) == |clicks| + Moves(acts, c0, k, i) + 1
  {
    DoneWrap(acts, c0, k);
    DoneRestart(acts, c0, k + 1);
    OwedPrefix(acts, c0, k + 1, 0, 0, trace, clicks, delays);
  }

  /**
   * One iteration of sequence mode after its flag read and finite-click check:
   * a click for action `i` if it is owed one, otherwise the cursor's advance,
   * which may end the job (`finished`).
   */
  method SequenceTurn(acts: seq<Action>, c0: nat, maxCycles: Option<nat>, k: nat, i: nat, j: nat,
                      trace0: seq<Event>, clicks0: seq<ClickAt>, delays0: seq<int>, last0: Option<Point>)
    returns (k': nat, i': nat, j': nat, trace: seq<Event>, clicks: seq<ClickAt>, delays: seq<int>,
             last: Option<Point>, finished: bool)
    requires Progress(acts, c0, k, i, j, trace0, clicks0, delays0) && last0 == LastAt(clicks0)
    requires forall n :: 0 <= n < |acts| ==> Sampleable(acts[n])
    requires maxCycles.Some? ==> k < Max(maxCycles.value, 1)
    ensures !finished ==>
      Progress(acts, c0, k', i', j', trace, clicks, delays) && last == LastAt(clicks) &&
      (maxCycles.Some? ==> k' < Max(maxCycles.value, 1))
    ensures finished ==>
      trace == trace0 && clicks == clicks0 && delays == delays0 && last == last0 &&
      i' == i == |acts| - 1 && maxCycles.Some? && k' == Max(maxCycles.value, 1) &&
      Follows(clicks, delays, Cycles(acts, c0, k')) && FollowsPrefix(clicks, delays, Cycles(acts, c0, k' + 1))
    ensures !finished ==> |clicks| + Moves(acts, c0, k', i') == |clicks0| + Moves(acts, c0, k, i) + 1
    ensures finished ==> SequenceReads(acts, c0, k') == |clicks0| + Moves(acts, c0, k, i) + 1
  {
    trace, clicks, delays, last, finished := trace0, clicks0, delays0, last0, false;
    if j >= acts[i].clicksPerCycle {
      k', i', finished := Advance(acts, c0, k, i, maxCycles);
      j' := 0;
      if finished {
        assert i + 1 == |acts| && k' == k + 1;
        FinishedAtWrap(acts, c0, k, i, j, trace, clicks, delays);
      }
    } else {
      k', i', j' := k, i, j + 1;
      trace, clicks, delays, last := ClickAtCursor(acts, c0, k, i, j, trace0, clicks0, delays0, last0);
    }
  }

  /**
   * Sequence mode over a non-empty sequence, from cursor `c0`: action `i` gets
   * `clicks_per_cycle` clicks, then the cursor moves on, wrapping after the last
   * action and counting a completed cycle. `Some(m)` cycles ends the job at
   * the wrap that completes `max(m, 1)` cycles, leaving the cursor on the last
   * action; a cancelled run stops part-way through a cycle. `Some(0)` finite
   * clicks ends the job before anything happens.
   */
  method RunSequence(flag: Flag, acts: seq<Action>, c0: nat, maxCycles: Option<nat>, finite: Option<nat>)
    returns (trace: seq<Event>, clicks: seq<ClickAt>, delays: seq<int>, loads: nat, exit: Exit,
             last: Option<Point>, cursor: nat, cycles: nat)
    requires c0 < |acts|
    requires forall i :: 0 <= i < |acts| ==> Sampleable(acts[i])
    ensures |clicks| == |delays| && trace == ClickRounds(clicks, delays) && last == LastAt(clicks)
    ensures cursor < |acts|
    ensures 1 <= loads <= flag.stopAfter + 1
    ensures exit == Cancelled <==> loads == flag.stopAfter + 1
    ensures FollowsPrefix(clicks, delays, Cycles(acts, c0, cycles + 1))
    ensures finite == Some(0) ==> clicks == [] && cycles == 0 && cursor == c0
    ensures exit == Finished && finite != Some(0) ==>
      maxCycles.Some? && cycles == Max(maxCycles.value, 1) && cursor == |acts| - 1 &&
      Follows(clicks, delays, Cycles(acts, c0, cycles))
    ensures maxCycles.Some? ==> cycles <= Max(maxCycles.value, 1)
    ensures finite == Some(0) ==> loads == 1 && (exit == Finished <==> flag.stopAfter > 0)
    ensures exit == Finished && finite != Some(0) ==> loads == SequenceReads(acts, c0, cycles)
    ensures finite != Some(0) ==>
      (exit == Finished <==> maxCycles.Some? && SequenceReads(acts, c0, Max(maxCycles.value, 1)) <= flag.stopAfter)
  {
    trace, clicks, delays, loads, last := [], [], [], 0, None;
    var i: nat, j: nat, k: nat := c0, 0, 0;
    while true
      invariant Progress(acts, c0, k, i, j, trace, clicks, delays) && last == LastAt(clicks)
      invariant loads <= flag.stopAfter && loads == |clicks| + Moves(acts, c0, k, i)
      invariant finite == Some(0) ==> loads == 0 && clicks == [] && k == 0 && i == c0
      invariant maxCycles.Some? ==> k < Max(maxCycles.value, 1)
      decreases flag.stopAfter - loads
    {
      if !flag.Load(loads) {
        if maxCycles.Some? {
          ShortOfLimit(acts, c0, k, i, j, clicks, delays, maxCycles.value);
        }
        loads, exit, cursor, cycles := loads + 1, Cancelled, i, k;
        OwedPrefix(acts, c0, k, i, j, trace, clicks, delays);
        return;
      }
      loads := loads + 1;
      if finite == Some(0) {
        exit, cursor, cycles := Finished, i, k;
        OwedPrefix(acts, c0, k, i, j, trace, clicks, delays);
        return;
      }
      var finished;
      k, i, j, trace, clicks, delays, last, finished :=
        SequenceTurn(acts, c0, maxCycles, k, i, j, trace, clicks, delays, last);
      if finished {
        exit, cursor, cycles := Finished, i, k;
        return;
      }
    }
  }

  /** A run from the start of the sequence that reaches its cycle limit `m` did exactly `max(m, 1)` whole cycles. */
  lemma FromStart(acts: seq<Action>, k: nat)
    requires k >= 1
    ensures Cycles(acts, 0, k) == Repeat(From(acts, 0), k)
  {
    var p := From(acts, 0);
    assert Repeat(p, 1) == p by {
      assert Repeat(p, 0) == [];
    }
    RepeatFront(p, k - 1);
  }

  lemma {:induction false} RepeatFront(p: seq<Target>, k: nat)
    ensures p + Repeat(p, k) == Repeat(p, k + 1)
  {
    if k > 0 {
      RepeatFront(p, k - 1);
      assert p + Repeat(p, k) == p + Repeat(p, k - 1) + p;
    }
  }

  /* ------------------------------ The job ------------------------------ */

  /** Whether the configuration gives the worker anything to click. */
  predicate Clicks(cfg: Config) {
    if cfg.sequenceMode then cfg.sequence != [] else cfg.bounds.Some? && cfg.bounds.value.IsValid()
  }

  /** What the worker needs so that indexing and sampling cannot panic. */
  predicate Runnable(cfg: Config) {
    (cfg.sequenceMode && cfg.sequence != [] ==>
       cfg.currentAction < |cfg.sequence| && forall i :: 0 <= i < |cfg.sequence| ==> Sampleable(cfg.sequence[i])) &&
    (!cfg.sequenceMode && Clicks(cfg) ==> cfg.minMs <= cfg.maxMs)
  }

  /**
   * The worker thread of `ClickJob::spawn`, until its loop ends; `cursor` is
   * the `current_action` it leaves in the configuration.
   */
  method Job(flag: Flag, cfg: Config)
    returns (trace: seq<Event>, clicks: seq<ClickAt>, delays: seq<int>, loads: nat, exit: Exit, cursor: nat)
    requires Runnable(cfg)
    ensures 1 <= loads <= flag.stopAfter + 1
    ensures exit == Cancelled <==> loads == flag.stopAfter + 1
    ensures cfg.finiteClicks == Some(0) ==> clicks == []
    ensures !Clicks(cfg) ==> clicks == [] && trace == Idles(loads - 1) && cursor == cfg.currentAction
    ensures Clicks(cfg) ==> |clicks| == |delays| && trace == ClickRounds(clicks, delays)
    ensures !cfg.sequenceMode ==> cursor == cfg.currentAction
    ensures !cfg.sequenceMode && Clicks(cfg) ==>
      Follows(clicks, delays, Rep(SingleTarget(cfg.bounds.value, cfg.button, cfg.minMs, cfg.maxMs), |clicks|)) &&
      (exit == Finished <==> cfg.finiteClicks.Some? && cfg.finiteClicks.value < flag.stopAfter) &&
      (exit == Finished ==> |clicks| == cfg.finiteClicks.value)
    ensures cfg.sequenceMode && Clicks(cfg) ==> cursor < |cfg.sequence|
    ensures cfg.sequenceMode && Clicks(cfg) && cfg.currentAction == 0 && exit == Finished && cfg.finiteClicks != Some(0) ==>
      cfg.sequenceCycles.Some? &&
      Follows(clicks, delays, Repeat(From(cfg.sequence, 0), Max(cfg.sequenceCycles.value, 1)))
    ensures cfg.sequenceMode && Clicks(cfg) ==>
      exists k: nat :: FollowsPrefix(clicks, delays, Cycles(cfg.sequence, cfg.currentAction, k))
    ensures cfg.sequenceMode && Clicks(cfg) && exit == Finished && cfg.finiteClicks != Some(0) ==>
      cfg.sequenceCycles.Some? && cursor == |cfg.sequence| - 1 &&
      Follows(clicks, delays, Cycles(cfg.sequence, cfg.currentAction, Max(cfg.sequenceCycles.value, 1))) &&
      loads == SequenceReads(cfg.sequence, cfg.currentAction, Max(cfg.sequenceCycles.value, 1))
    ensures cfg.sequenceMode && Clicks(cfg) && cfg.finiteClicks != Some(0) ==>
      (exit == Finished <==> cfg.sequenceCycles.Some? &&
                             SequenceReads(cfg.sequence, cfg.currentAction, Max(cfg.sequenceCycles.value, 1)) <= flag.stopAfter)
    ensures cfg.finiteClicks == Some(0) ==> loads == 1 && (exit == Finished <==> flag.stopAfter > 0)
  {
    cursor := cfg.currentAction;
    if !Clicks(cfg) {
      clicks, delays := [], [];
      trace, loads, exit := IdleLoop(flag, cfg.finiteClicks);
    } else if cfg.sequenceMode {
      var last, cycles;
      trace, clicks, delays, loads, exit, last, cursor, cycles :=
        RunSequence(flag, cfg.sequence, cfg.currentAction, cfg.sequenceCycles, cfg.finiteClicks);
      if cfg.currentAction == 0 && exit == Finished && cfg.finiteClicks != Some(0) {
        FromStart(cfg.sequence, cycles);
      }
    } else {
      var last;
      trace, clicks, delays, loads, exit, last :=
        RunSingle(flag, SingleTarget(cfg.bounds.value, cfg.button, cfg.minMs, cfg.maxMs), cfg.finiteClicks);
    }
  }
}
