/**
 * The worker loop of the `AppState::start` variant in src/temp_main2.rs
 * (lines 119-215). The worker takes the configuration lock at the top of each
 * outer iteration and holds it to the end of that iteration; the model runs
 * the whole job on one configuration value, as if nobody edited it while the
 * job runs. Counters are `i32`s that are decremented and then tested, and
 * sequence actions carry an `enabled` switch.
 */
module Temp2Job {
  import opened Wrappers
  import opened Geometry
  import opened Events

  /** The pause of an idle iteration (an empty sequence or an invalid region), in ms. */
  const IdleMs: int := 100

  /** `SequenceAction`; the delays are in milliseconds. */
  datatype Action = Action(bounds: Bounds, button: Button, minMs: int, maxMs: int,
                           clicksPerCycle: int, name: string, enabled: bool)

  /** `ClickConfig`, as the worker sees it while it holds the lock. */
  datatype Config = Config(bounds: Option<Bounds>, button: Button, minMs: int, maxMs: int,
                           sequenceMode: bool, sequence: seq<Action>)

  /**
   * How many times a counter that starts at `n` is decremented and tested before
   * it is `<= 0`: `n` for a positive `n`, and once for any other value.
   */
  function Rounds(n: int): (r: nat)
    ensures r >= 1 && (n >= 1 ==> r == n) && (n <= 0 ==> r == 1)
  {
    if n <= 0 then 1 else n
  }

  /** The sampling ranges of an action the worker clicks are non-empty (`gen_range` panics otherwise). */
  predicate Runnable(a: Action) {
    a.enabled && a.clicksPerCycle > 0 ==> a.bounds.NonEmpty() && 0 <= a.minMs <= a.maxMs
  }

  function ActionTarget(a: Action): Target { Target(a.bounds, a.button, a.minMs, a.maxMs) }

  /** The clicks one pass asks of an action: `clicks_per_cycle` of them if it is enabled. */
  function ActionPlan(a: Action): seq<Target> {
    if a.enabled then Rep(ActionTarget(a), a.clicksPerCycle) else []
  }

  function ActionPlans(actions: seq<Action>): (r: seq<seq<Target>>)
    ensures |r| == |actions| && forall i :: 0 <= i < |actions| ==> r[i] == ActionPlan(actions[i])
  {
    seq(|actions|, i requires 0 <= i < |actions| => ActionPlan(actions[i]))
  }

  /** One pass over the sequence: the enabled actions, in list order. */
  function PassPlan(actions: seq<Action>): seq<Target> { Flatten(ActionPlans(actions)) }

  /** How many of the actions are enabled. */
  function Enabled(actions: seq<Action>): nat
    decreases |actions|
  {
    if actions == [] then 0
    else Enabled(actions[..|actions| - 1]) + (if actions[|actions| - 1].enabled then 1 else 0)
  }

  lemma EnabledSnoc(actions: seq<Action>, i: nat)
    requires i < |actions|
    ensures Enabled(actions[..i + 1]) == Enabled(actions[..i]) + (if actions[i].enabled then 1 else 0)
  {
    assert actions[..i + 1][..i] == actions[..i];
  }

  /**
   * Switching the `enabled` box of action `i` to `e` changes the count of
   * enabled actions by that action alone.
   */
  lemma {:induction false} EnabledUpdate(actions: seq<Action>, i: nat, e: bool)
    requires i < |actions|
    ensures Enabled(actions[i := actions[i].(enabled := e)]) + (if actions[i].enabled then 1 else 0)
         == Enabled(actions) + (if e then 1 else 0)
    decreases |actions|
  {
    var n := |actions| - 1;
    var t := actions[i := actions[i].(enabled := e)];
    if i == n {
      assert t[..n] == actions[..n];
    } else {
      assert t[..n] == actions[..n][i := actions[..n][i].(enabled := e)];
      EnabledUpdate(actions[..n], i, e);
    }
  }

  /** The actions before `i` have no more enabled ones than the whole sequence. */
  lemma {:induction false} EnabledPrefix(actions: seq<Action>, i: nat)
    requires i <= |actions|
    ensures Enabled(actions[..i]) <= Enabled(actions)
    decreases |actions|
  {
    var n := |actions|;
    if i == n {
      assert actions[..i] == actions;
    } else {
      EnabledPrefix(actions[..n - 1], i);
      assert actions[..n - 1][..i] == actions[..i];
    }
  }

  /**
   * The flag reads `n` whole passes take when every read is `true`: one at the
   * top of the outer loop and one before each enabled action.
   */
  function PassReads(actions: seq<Action>, n: nat): nat {
    if n == 0 then 0 else PassReads(actions, n - 1) + 1 + Enabled(actions)
  }

  /** More passes take more flag reads. */
  lemma {:induction false} PassReadsMono(actions: seq<Action>, a: nat, b: nat)
    requires a <= b
    ensures PassReads(actions, a) <= PassReads(actions, b)
    decreases b
  {
    if a < b {
      PassReadsMono(actions, a, b - 1);
    }
  }

  /** Every click is directly preceded by a human-like move to the point it clicks. */
  predicate Approached(t: seq<Event>) {
    forall i :: 0 <= i < |t| && t[i].Click? ==> 0 < i && t[i - 1].HumanMove? && t[i - 1].to == t[i].at
  }

  /** A trace whose clicks are approached and which sleeps exactly the sampled delays. */
  predicate Paced(t: seq<Event>, delays: seq<int>) {
    Approached(t) && SleepTotal(t) == Sum(delays)
  }

  lemma ApproachedAppend(a: seq<Event>, b: seq<Event>)
    requires Approached(a) && Approached(b)
    ensures Approached(a + b)
  {
    var t := a + b;
    forall i | 0 <= i < |t| && t[i].Click?
      ensures 0 < i && t[i - 1].HumanMove? && t[i - 1].to == t[i].at
    {
      if i >= |a| {
        assert t[i] == b[i - |a|];
        assert t[i - 1] == b[i - 1 - |a|];
      }
    }
  }

  /** Two paced runs, one after the other, make a paced run whose clicks are theirs in order. */
  lemma PacedAppend(t1: seq<Event>, d1: seq<int>, t2: seq<Event>, d2: seq<int>)
    requires Paced(t1, d1) && Paced(t2, d2)
    ensures Paced(t1 + t2, d1 + d2)
    ensures ClickLog(t1 + t2) == ClickLog(t1) + ClickLog(t2)
  {
    ApproachedAppend(t1, t2);
    SleepTotalAppend(t1, t2);
    SumAppend(d1, d2);
    ClickLogAppend(t1, t2);
  }

  /**
   * One click: move from wherever the pointer is (`mouse_location`, which the
   * user may have changed) to a point sampled in `b`, then click there.
   */
  method MoveAndClick(b: Bounds, button: Button) returns (ev: seq<Event>, at: Point)
    requires b.NonEmpty()
    ensures b.Contains(at)
    ensures |ev| == 2 && ev[0].HumanMove? && ev[0].to == at && ev[1] == Click(at, button)
  {
    var x :| b.minX <= x <= b.maxX;
    var y :| b.minY <= y <= b.maxY;
    var from: Point :| true;
    at := Point(x, y);
    ev := [HumanMove(from, at), Click(at, button)];
  }

  /** The events of one click: exactly that click, approached, and no sleep. */
  lemma ClickEvents(ev: seq<Event>, at: Point, button: Button)
    requires |ev| == 2 && ev[0].HumanMove? && ev[0].to == at && ev[1] == Click(at, button)
    ensures Paced(ev, []) && ClickLog(ev) == [ClickAt(at, button)]
  {
    assert ev[..1] == [ev[0]] && [ev[0]][..0] == [];
    assert ClickLog([ev[0]]) == [];
    assert SleepTotal([ev[0]]) == 0;
    assert ev[..|ev| - 1] == [ev[0]];
  }

  /** The events of one sleep: no click, and `d` ms slept. */
  lemma SleepEvents(d: int)
    ensures Paced([Sleep(d)], [d]) && ClickLog([Sleep(d)]) == []
  {
    assert [Sleep(d)][..0] == [];
    assert [d][..0] == [];
  }

  /** A click of target `t` followed by a sleep of `d` extends a run that follows `plan` by `t`. */
  lemma ClickRoundSnoc(trace: seq<Event>, delays: seq<int>, plan: seq<Target>, ev: seq<Event>, at: Point, d: int, t: Target)
    requires Paced(trace, delays) && Follows(ClickLog(trace), delays, plan)
    requires |ev| == 2 && ev[0].HumanMove? && ev[0].to == at && ev[1] == Click(at, t.button)
    requires t.bounds.Contains(at) && t.lo <= d <= t.hi
    ensures Paced(trace + ev + [Sleep(d)], delays + [d])
    ensures Follows(ClickLog(trace + ev + [Sleep(d)]), delays + [d], plan + [t])
  {
    var tail := ev + [Sleep(d)];
    ClickEvents(ev, at, t.button);
    SleepEvents(d);
    PacedAppend(ev, [], [Sleep(d)], [d]);
    assert [] + [d] == [d];
    assert ClickLog(tail) == [ClickAt(at, t.button)];
    PacedAppend(trace, delays, tail, [d]);
    assert trace + ev + [Sleep(d)] == trace + tail;
    FollowsSnoc(ClickLog(trace), delays, plan, ClickAt(at, t.button), d, t);
  }

  /** The last click of a finished single-mode run: a click of `t` with no delay after it. */
  lemma LastClick(trace: seq<Event>, delays: seq<int>, ev: seq<Event>, at: Point, t: Target)
    requires Paced(trace, delays) && Follows(ClickLog(trace), delays, Rep(t, |delays|))
    requires |ev| == 2 && ev[0].HumanMove? && ev[0].to == at && ev[1] == Click(at, t.button)
    requires t.bounds.Contains(at)
    ensures Paced(trace + ev, delays)
    ensures |ClickLog(trace + ev)| == |delays| + 1
    ensures Follows(ClickLog(trace + ev)[..|delays|], delays, Rep(t, |delays|))
    ensures Hits(ClickLog(trace + ev)[|delays|], t)
  {
    ClickEvents(ev, at, t.button);
    PacedAppend(trace, delays, ev, []);
    assert delays + [] == delays;
    assert ClickLog(trace + ev)[..|delays|] == ClickLog(trace);
  }

  /** The inner `for _ in 0..clicks_per_cycle` loop of one enabled action. */
  method RunAction(a: Action) returns (trace: seq<Event>, delays: seq<int>)
    requires a.enabled && Runnable(a)
    ensures Paced(trace, delays)
    ensures Follows(ClickLog(trace), delays, ActionPlan(a))
  {
    var t := ActionTarget(a);
    trace, delays := [], [];
    assert Sum([]) == 0;
    for i := 0 to Max(a.clicksPerCycle, 0)
      invariant Paced(trace, delays)
      invariant Follows(ClickLog(trace), delays, Rep(t, i))
    {
      var ev, at := MoveAndClick(a.bounds, a.button);
      var d :| a.minMs <= d <= a.maxMs;
      ClickRoundSnoc(trace, delays, Rep(t, i), ev, at, d, t);
      RepSnoc(t, i);
      trace, delays := trace + ev + [Sleep(d)], delays + [d];
    }
    assert Rep(t, Max(a.clicksPerCycle, 0)) == Rep(t, a.clicksPerCycle);
  }

  /** An action's run, or nothing for a disabled action, extends a run of the pass so far. */
  lemma ActionSnoc(trace: seq<Event>, delays: seq<int>, t2: seq<Event>, d2: seq<int>, actions: seq<Action>, i: nat)
    requires i < |actions|
    requires Paced(trace, delays) && Follows(ClickLog(trace), delays, Flatten(ActionPlans(actions)[..i]))
    requires Paced(t2, d2) && Follows(ClickLog(t2), d2, ActionPlan(actions[i]))
    ensures Paced(trace + t2, delays + d2)
    ensures Follows(ClickLog(trace + t2), delays + d2, Flatten(ActionPlans(actions)[..i + 1]))
  {
    PacedAppend(trace, delays, t2, d2);
    FlattenSnoc(ActionPlans(actions), i);
    FollowsAppend(ClickLog(trace), delays, Flatten(ActionPlans(actions)[..i]), ClickLog(t2), d2, ActionPlan(actions[i]));
  }

  /**
   * One pass over the enabled actions. The run flag is read before each of them;
   * `done` is false when a read came back false, which ends the pass at an action
   * boundary: no action's clicks are cut short.
   */
  method RunPass(flag: Flag, loads0: nat, actions: seq<Action>)
    returns (trace: seq<Event>, delays: seq<int>, loads: nat, done: bool)
    requires loads0 <= flag.stopAfter
    requires forall i :: 0 <= i < |actions| ==> Runnable(actions[i])
    ensures Paced(trace, delays)
    ensures loads0 <= loads
    ensures done <==> loads <= flag.stopAfter
    ensures done ==> Follows(ClickLog(trace), delays, PassPlan(actions))
    ensures !done ==> exists j :: 0 <= j < |actions| && actions[j].enabled &&
                                  Follows(ClickLog(trace), delays, Flatten(ActionPlans(actions)[..j]))
    ensures done ==> loads == loads0 + Enabled(actions)
    ensures !done ==> loads <= loads0 + Enabled(actions)
  {
    trace, delays, loads := [], [], loads0;
    assert Sum([]) == 0;
    assert actions[..0] == [];
    for i := 0 to |actions|
      invariant loads0 <= loads <= flag.stopAfter
      invariant loads == loads0 + Enabled(actions[..i])
      invariant Paced(trace, delays)
      invariant Follows(ClickLog(trace), delays, Flatten(ActionPlans(actions)[..i]))
    {
      var t2: seq<Event>, d2: seq<int> := [], [];
      EnabledSnoc(actions, i);
      if actions[i].enabled {
        if !flag.Load(loads) {
          loads, done := loads + 1, false;
          EnabledPrefix(actions, i + 1);
          return;
        }
        loads := loads + 1;
        t2, d2 := RunAction(actions[i]);
      }
      ActionSnoc(trace, delays, t2, d2, actions, i);
      trace, delays := trace + t2, delays + d2;
    }
    done := true;
    assert ActionPlans(actions)[..|actions|] == ActionPlans(actions);
    assert actions[..|actions|] == actions;
  }

  /** A completed pass extends a run of `k` passes to `k + 1`. */
  lemma PassSnoc(trace: seq<Event>, delays: seq<int>, t2: seq<Event>, d2: seq<int>, actions: seq<Action>, k: nat)
    requires Paced(trace, delays) && Follows(ClickLog(trace), delays, Repeat(PassPlan(actions), k))
    requires Paced(t2, d2) && Follows(ClickLog(t2), d2, PassPlan(actions))
    ensures Paced(trace + t2, delays + d2)
    ensures Follows(ClickLog(trace + t2), delays + d2, Repeat(PassPlan(actions), k + 1))
  {
    PacedAppend(trace, delays, t2, d2);
    FollowsAppend(ClickLog(trace), delays, Repeat(PassPlan(actions), k), ClickLog(t2), d2, PassPlan(actions));
  }

  /** A pass cut before action `j` extends a run of `k` passes by the actions before `j`. */
  lemma PassCut(trace: seq<Event>, delays: seq<int>, t2: seq<Event>, d2: seq<int>, actions: seq<Action>, k: nat, j: nat)
    requires j <= |actions|
    requires Paced(trace, delays) && Follows(ClickLog(trace), delays, Repeat(PassPlan(actions), k))
    requires Paced(t2, d2) && Follows(ClickLog(t2), d2, Flatten(ActionPlans(actions)[..j]))
    ensures Paced(trace + t2, delays + d2)
    ensures Follows(ClickLog(trace + t2), delays + d2, Repeat(PassPlan(actions), k) + Flatten(ActionPlans(actions)[..j]))
  {
    PacedAppend(trace, delays, t2, d2);
    FollowsAppend(ClickLog(trace), delays, Repeat(PassPlan(actions), k), ClickLog(t2), d2, Flatten(ActionPlans(actions)[..j]));
  }

  /** A run of whole passes is a run cut before the first action of the next. */
  lemma CutAtStart(log: seq<ClickAt>, delays: seq<int>, actions: seq<Action>, k: nat)
    requires Follows(log, delays, Repeat(PassPlan(actions), k))
    ensures exists j :: (0 <= j <= |actions| &&
      Follows(log, delays, Repeat(PassPlan(actions), k) + Flatten(ActionPlans(actions)[..j])))
  {
    assert ActionPlans(actions)[..0] == [];
    assert Repeat(PassPlan(actions), k) + Flatten(ActionPlans(actions)[..0]) == Repeat(PassPlan(actions), k);
  }

  /** One iteration of the outer loop after its flag read: a pass, appended to the `k` passes so far. */
  method NextPass(flag: Flag, actions: seq<Action>, trace0: seq<Event>, delays0: seq<int>, loads0: nat, k: nat)
    returns (trace: seq<Event>, delays: seq<int>, loads: nat, done: bool)
    requires loads0 <= flag.stopAfter
    requires forall i :: 0 <= i < |actions| ==> Runnable(actions[i])
    requires Paced(trace0, delays0) && Follows(ClickLog(trace0), delays0, Repeat(PassPlan(actions), k))
    ensures Paced(trace, delays) && loads0 <= loads
    ensures done <==> loads <= flag.stopAfter
    ensures done ==> Follows(ClickLog(trace), delays, Repeat(PassPlan(actions), k + 1))
    ensures !done ==> exists j :: (0 <= j <= |actions| &&
      Follows(ClickLog(trace), delays, Repeat(PassPlan(actions), k) + Flatten(ActionPlans(actions)[..j])))
    ensures done ==> loads == loads0 + Enabled(actions)
    ensures !done ==> loads <= loads0 + Enabled(actions)
  {
    var t2, d2;
    t2, d2, loads, done := RunPass(flag, loads0, actions);
    if !done {
      var j :| 0 <= j < |actions| && actions[j].enabled && Follows(ClickLog(t2), d2, Flatten(ActionPlans(actions)[..j]));
      PassCut(trace0, delays0, t2, d2, actions, k, j);
    } else {
      PassSnoc(trace0, delays0, t2, d2, actions, k);
    }
    trace, delays := trace0 + t2, delays0 + d2;
  }

  /** The state of the outer loop between passes: `passes` whole passes, and every flag read so far `true`. */
  predicate Running(flag: Flag, actions: seq<Action>, cycles: Option<int>,
                    trace: seq<Event>, delays: seq<int>, loads: nat, passes: nat, left: Option<int>) {
    loads <= flag.stopAfter && loads == PassReads(actions, passes) &&
    Paced(trace, delays) && Follows(ClickLog(trace), delays, Repeat(PassPlan(actions), passes)) &&
    (left.Some? <==> cycles.Some?) &&
    (cycles.Some? ==> left.value == cycles.value - passes && passes < Rounds(cycles.value))
  }

  /** How a run of the sequence arm ended, as `RunSequence` states it. */
  predicate Ended(flag: Flag, actions: seq<Action>, cycles: Option<int>,
                  trace: seq<Event>, delays: seq<int>, loads: nat, exit: Exit, passes: nat) {
    Paced(trace, delays) &&
    (exit == Cancelled <==> loads > flag.stopAfter) &&
    (exit == Finished ==> cycles.Some? && passes == Rounds(cycles.value) &&
                          Follows(ClickLog(trace), delays, Repeat(PassPlan(actions), passes))) &&
    (exit == Cancelled ==> cycles.Some? ==> passes < Rounds(cycles.value)) &&
    (exit == Cancelled ==> (exists j :: 0 <= j <= |actions| &&
                              Follows(ClickLog(trace), delays, Repeat(PassPlan(actions), passes) + Flatten(ActionPlans(actions)[..j])))) &&
    (exit == Finished ==> loads == PassReads(actions, passes)) &&
    (cycles.Some? ==> (exit == Finished <==> PassReads(actions, Rounds(cycles.value)) <= flag.stopAfter))
  }

  /** A flag read that comes back `false` at the top of the outer loop ends the run between passes. */
  lemma EndBetweenPasses(flag: Flag, actions: seq<Action>, cycles: Option<int>,
                         trace: seq<Event>, delays: seq<int>, loads: nat, passes: nat, left: Option<int>)
    requires Running(flag, actions, cycles, trace, delays, loads, passes, left) && loads == flag.stopAfter
    ensures Ended(flag, actions, cycles, trace, delays, loads + 1, Cancelled, passes)
  {
    if cycles.Some? {
      PassReadsMono(actions, passes + 1, Rounds(cycles.value));
    }
    CutAtStart(ClickLog(trace), delays, actions, passes);
  }

  /** A flag read that comes back `false` before an action ends the run part-way through a pass. */
  lemma EndInPass(flag: Flag, actions: seq<Action>, cycles: Option<int>,
                  trace0: seq<Event>, delays0: seq<int>, loads0: nat, passes: nat, left: Option<int>,
                  trace: seq<Event>, delays: seq<int>, loads: nat)
    requires Running(flag, actions, cycles, trace0, delays0, loads0, passes, left)
    requires Paced(trace, delays) && flag.stopAfter < loads <= loads0 + 1 + Enabled(actions)
    requires exists j :: (0 <= j <= |actions| &&
      Follows(ClickLog(trace), delays, Repeat(PassPlan(actions), passes) + Flatten(ActionPlans(actions)[..j])))
    ensures Ended(flag, actions, cycles, trace, delays, loads, Cancelled, passes)
  {
    if cycles.Some? {
      PassReadsMono(actions, passes + 1, Rounds(cycles.value));
    }
  }

  /**
   * One iteration of the outer loop of the sequence arm: its flag read, a pass,
   * and the cycle counter. `ended` is how the loop ends, if it does.
   */
  method Turn(flag: Flag, actions: seq<Action>, cycles: Option<int>,
              trace0: seq<Event>, delays0: seq<int>, loads0: nat, passes0: nat, left0: Option<int>)
    returns (trace: seq<Event>, delays: seq<int>, loads: nat, passes: nat, left: Option<int>, ended: Option<Exit>)
    requires forall i :: 0 <= i < |actions| ==> Runnable(actions[i])
    requires cycles.Some? ==> cycles.value > I32Min
    requires Running(flag, actions, cycles, trace0, delays0, loads0, passes0, left0)
    ensures ended.None? ==> Running(flag, actions, cycles, trace, delays, loads, passes, left) && loads0 < loads
    ensures ended.Some? ==> Ended(flag, actions, cycles, trace, delays, loads, ended.value, passes)
  {
    trace, delays, loads, passes, left := trace0, delays0, loads0, passes0, left0;
    if !flag.Load(loads) {
      EndBetweenPasses(flag, actions, cycles, trace, delays, loads, passes, left);
      return trace, delays, loads + 1, passes, left, Some(Cancelled);
    }
    var done;
    trace, delays, loads, done := NextPass(flag, actions, trace0, delays0, loads0 + 1, passes0);
    if !done {
      EndInPass(flag, actions, cycles, trace0, delays0, loads0, passes0, left0, trace, delays, loads);
      return trace, delays, loads, passes, left, Some(Cancelled);
    }
    passes := passes0 + 1;
    ended := None;
    if left.Some? {
      left := Some(left.value - 1);
      if left.value <= 0 {
        ended := Some(Finished);
      }
    }
  }

  /**
   * The sequence arm for a non-empty sequence: passes until the flag reads false
   * or the cycle counter, decremented after each pass, reaches `<= 0`. The flag
   * is read once per pass and once before each enabled action, so a limited run
   * finishes exactly when the flag stays set for all the reads of the passes it
   * asks for.
   */
  method RunSequence(flag: Flag, actions: seq<Action>, cycles: Option<int>)
    returns (trace: seq<Event>, delays: seq<int>, loads: nat, exit: Exit, passes: nat)
    requires forall i :: 0 <= i < |actions| ==> Runnable(actions[i])
    requires cycles.Some? ==> cycles.value > I32Min
    ensures Paced(trace, delays)
    ensures exit == Cancelled <==> loads > flag.stopAfter
    ensures exit == Finished ==> cycles.Some? && passes == Rounds(cycles.value) &&
                                 Follows(ClickLog(trace), delays, Repeat(PassPlan(actions), passes))
    ensures exit == Cancelled ==> cycles.Some? ==> passes < Rounds(cycles.value)
    ensures exit == Cancelled ==> (exists j :: 0 <= j <= |actions| &&
                                            Follows(ClickLog(trace), delays, Repeat(PassPlan(actions), passes) + Flatten(ActionPlans(actions)[..j])))
    ensures exit == Finished ==> loads == PassReads(actions, passes)
    ensures cycles.Some? ==> (exit == Finished <==> PassReads(actions, Rounds(cycles.value)) <= flag.stopAfter)
  {
    trace, delays, loads, passes := [], [], 0, 0;
    var left := cycles;
    assert Sum([]) == 0;
    while true
      invariant Running(flag, actions, cycles, trace, delays, loads, passes, left)
      decreases flag.stopAfter - loads
    {
      var ended;
      trace, delays, loads, passes, left, ended := Turn(flag, actions, cycles, trace, delays, loads, passes, left);
      if ended.Some? {
        exit := ended.value;
        return;
      }
    }
  }

  /**
   * The single-area arm for a valid region: click, decrement the click counter
   * and stop once it is `<= 0`, otherwise sleep a delay sampled from the interval.
   * The last click of a finished run is not followed by a delay.
   */
  method RunSingle(flag: Flag, b: Bounds, button: Button, minMs: int, maxMs: int, clicks: Option<int>)
    returns (trace: seq<Event>, delays: seq<int>, loads: nat, exit: Exit)
    requires b.IsValid() && 0 <= minMs <= maxMs
    requires clicks.Some? ==> clicks.value > I32Min
    ensures Paced(trace, delays)
    ensures exit == Cancelled <==> loads > flag.stopAfter
    ensures |ClickLog(trace)| == |delays| + (if exit == Finished then 1 else 0)
    ensures Follows(ClickLog(trace)[..|delays|], delays, Rep(Target(b, button, minMs, maxMs), |delays|))
    ensures exit == Finished ==> Hits(ClickLog(trace)[|delays|], Target(b, button, minMs, maxMs))
    ensures clicks.Some? ==> |ClickLog(trace)| <= Rounds(clicks.value)
    ensures exit == Finished <==> clicks.Some? && |ClickLog(trace)| == Rounds(clicks.value)
    ensures loads == |ClickLog(trace)| + (if exit == Cancelled then 1 else 0)
    ensures exit == Finished <==> clicks.Some? && Rounds(clicks.value) <= flag.stopAfter
  {
    var t := Target(b, button, minMs, maxMs);
    trace, delays, loads := [], [], 0;
    var left := clicks;
    assert Sum([]) == 0;
    while true
      invariant loads == |delays| <= flag.stopAfter
      invariant Paced(trace, delays) && Follows(ClickLog(trace), delays, Rep(t, |delays|))
      invariant left.Some? <==> clicks.Some?
      invariant clicks.Some? ==> left.value == clicks.value - |delays| && |delays| < Rounds(clicks.value)
      decreases flag.stopAfter - loads
    {
      if !flag.Load(loads) {
        loads, exit := loads + 1, Cancelled;
        assert ClickLog(trace)[..|delays|] == ClickLog(trace);
        return;
      }
      loads := loads + 1;
      var ev, at := MoveAndClick(b, button);
      if left.Some? {
        left := Some(left.value - 1);
        if left.value <= 0 {
          LastClick(trace, delays, ev, at, t);
          trace, exit := trace + ev, Finished;
          return;
        }
      }
      var d :| minMs <= d <= maxMs;
      ClickRoundSnoc(trace, delays, Rep(t, |delays|), ev, at, d, t);
      RepSnoc(t, |delays|);
      trace, delays := trace + ev + [Sleep(d)], delays + [d];
    }
  }

  /**
   * An idle loop: read the flag until it is false, sleeping `IdleMs` after every
   * `true` read when `pause` holds, and not sleeping at all otherwise.
   */
  method IdleLoop(flag: Flag, pause: bool) returns (trace: seq<Event>, loads: nat)
    ensures loads == flag.stopAfter + 1
    ensures ClickLog(trace) == []
    ensures SleepTotal(trace) == (if pause then IdleMs * flag.stopAfter else 0)
  {
    trace, loads := [], 0;
    while flag.Load(loads)
      invariant loads <= flag.stopAfter
      invariant ClickLog(trace) == [] && SleepTotal(trace) == (if pause then IdleMs * loads else 0)
      decreases flag.stopAfter - loads
    {
      if pause {
        assert (trace + [Sleep(IdleMs)])[..|trace|] == trace;
        trace := trace + [Sleep(IdleMs)];
      }
      loads := loads + 1;
    }
    loads := loads + 1;
  }

  /** The configurations whose arm the worker only idles in: it never clicks on them. */
  predicate Idles(cfg: Config) {
    if cfg.sequenceMode then cfg.sequence == [] else !(cfg.bounds.Some? && cfg.bounds.value.IsValid())
  }

  /**
   * The worker thread of `start`, given the configuration it finds under the
   * lock and the click and cycle limits captured when it was spawned.
   */
  method Job(flag: Flag, cfg: Config, finiteClicks: Option<int>, sequenceCycles: Option<int>)
    returns (trace: seq<Event>, delays: seq<int>, loads: nat, exit: Exit)
    requires cfg.sequenceMode ==> forall i :: 0 <= i < |cfg.sequence| ==> Runnable(cfg.sequence[i])
    requires cfg.sequenceMode && sequenceCycles.Some? ==> sequenceCycles.value > I32Min
    requires !cfg.sequenceMode && finiteClicks.Some? ==> finiteClicks.value > I32Min
    requires !Idles(cfg) && !cfg.sequenceMode ==> 0 <= cfg.minMs <= cfg.maxMs
    ensures exit == Cancelled <==> loads > flag.stopAfter
    ensures Idles(cfg) ==> exit == Cancelled && ClickLog(trace) == []
    ensures cfg.sequenceMode && exit == Finished ==>
      sequenceCycles.Some? && Follows(ClickLog(trace), delays, Repeat(PassPlan(cfg.sequence), Rounds(sequenceCycles.value)))
    ensures !cfg.sequenceMode && exit == Finished ==> finiteClicks.Some? && |ClickLog(trace)| == Rounds(finiteClicks.value)
    ensures !Idles(cfg) ==> Paced(trace, delays)
    ensures Idles(cfg) ==> loads == flag.stopAfter + 1
    ensures cfg.sequenceMode && !Idles(cfg) && exit == Cancelled ==>
      exists k: nat, j :: (0 <= j <= |cfg.sequence| &&
        Follows(ClickLog(trace), delays, Repeat(PassPlan(cfg.sequence), k) + Flatten(ActionPlans(cfg.sequence)[..j])))
    ensures cfg.sequenceMode && exit == Finished ==> loads == PassReads(cfg.sequence, Rounds(sequenceCycles.value))
    ensures cfg.sequenceMode && !Idles(cfg) && sequenceCycles.Some? ==>
      (exit == Finished <==> PassReads(cfg.sequence, Rounds(sequenceCycles.value)) <= flag.stopAfter)
    ensures !cfg.sequenceMode && !Idles(cfg) ==>
      |ClickLog(trace)| == |delays| + (if exit == Finished then 1 else 0) &&
      Follows(ClickLog(trace)[..|delays|], delays, Rep(Target(cfg.bounds.value, cfg.button, cfg.minMs, cfg.maxMs), |delays|)) &&
      (exit == Finished ==> Hits(ClickLog(trace)[|delays|], Target(cfg.bounds.value, cfg.button, cfg.minMs, cfg.maxMs)))
    ensures !cfg.sequenceMode && !Idles(cfg) ==>
      loads == |ClickLog(trace)| + (if exit == Cancelled then 1 else 0) &&
      (exit == Finished <==> finiteClicks.Some? && Rounds(finiteClicks.value) <= flag.stopAfter)
  {
    delays := [];
    if Idles(cfg) {
      var sleeps := cfg.sequenceMode || cfg.bounds.Some?;
      trace, loads := IdleLoop(flag, sleeps);
      exit := Cancelled;
    } else if cfg.sequenceMode {
      var passes;
      trace, delays, loads, exit, passes := RunSequence(flag, cfg.sequence, sequenceCycles);
    } else {
      trace, delays, loads, exit := RunSingle(flag, cfg.bounds.value, cfg.button, cfg.minMs, cfg.maxMs, finiteClicks);
    }
  }

  /** Two enabled actions of two and three clicks, and a disabled one, ask for five clicks per pass. */
  lemma PassPlanExample(a: Action, b: Action, c: Action)
    requires a.enabled && a.clicksPerCycle == 2 && b.enabled && b.clicksPerCycle == 3 && !c.enabled
    ensures PassPlan([a, c, b]) == Rep(ActionTarget(a), 2) + Rep(ActionTarget(b), 3)
  {
    var ps := ActionPlans([a, c, b]);
    assert ps[..3] == ps && ps[..2][..1] == ps[..1] && ps[..1][..0] == [];
    FlattenSnoc(ps, 0);
    FlattenSnoc(ps, 1);
    FlattenSnoc(ps, 2);
  }

  /** A cycle count of zero or less still runs the sequence once; `Some(3)` runs it three times. */
  lemma CycleCountExamples()
    ensures Rounds(0) == 1 && Rounds(-5) == 1 && Rounds(3) == 3
  {
  }
}
