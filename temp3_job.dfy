/**
 * The worker loop of `AppState::start` in src/temp_main3.rs (lines 98-151):
 * sequence mode only, over a copy of the step list taken at start. Unlike the
 * other variants it reads the run flag before every single click, so a pause
 * takes effect within one click. Steps have the same shape and per-pass plan as
 * the actions of `Temp2Job`.
 */
module Temp3Job {
  import opened Wrappers
  import opened Geometry
  import opened Events
  import opened Temp2Job

  /** The limit the worker counts down: none when "infinite cycles" is ticked, else the cycle count. */
  function CycleLimit(infiniteCycles: bool, sequenceCycles: Option<int>): (r: Option<int>)
    ensures r.None? <==> infiniteCycles || sequenceCycles.None?
    ensures r.Some? ==> r == sequenceCycles
  {
    if infiniteCycles then None else sequenceCycles
  }

  /**
   * The flag reads `n` whole passes take when every read is `true`: one before
   * each pass and one before each of its clicks.
   */
  function ClickReads(steps: seq<Action>, n: nat): nat {
    if n == 0 then 0 else ClickReads(steps, n - 1) + 1 + |PassPlan(steps)|
  }

  /**
   * The clicks of one enabled step: before each one the flag is read, and a
   * `false` ends the step (`done` is false) without clicking.
   */
  method RunStep(flag: Flag, loads0: nat, a: Action)
    returns (trace: seq<Event>, delays: seq<int>, loads: nat, done: bool)
    requires a.enabled && Runnable(a) && loads0 <= flag.stopAfter
    ensures Paced(trace, delays)
    ensures done <==> loads <= flag.stopAfter
    ensures loads <= flag.stopAfter + 1
    ensures loads == loads0 + |delays| + (if done then 0 else 1)
    ensures done ==> Follows(ClickLog(trace), delays, ActionPlan(a))
    ensures FollowsPrefix(ClickLog(trace), delays, ActionPlan(a))
    ensures !done ==> |delays| < a.clicksPerCycle
  {
    var t := ActionTarget(a);
    trace, delays, loads := [], [], loads0;
    assert Sum([]) == 0;
    for i := 0 to Max(a.clicksPerCycle, 0)
      invariant loads == loads0 + i && loads <= flag.stopAfter && |delays| == i
      invariant Paced(trace, delays)
      invariant Follows(ClickLog(trace), delays, Rep(t, i))
    {
      if !flag.Load(loads) {
        loads, done := loads + 1, false;
        assert Rep(t, a.clicksPerCycle)[..i] == Rep(t, i);
        return;
      }
      loads := loads + 1;
      var ev, at := MoveAndClick(a.bounds, a.button);
      var d :| a.minMs <= d <= a.maxMs;
      ClickRoundSnoc(trace, delays, Rep(t, i), ev, at, d, t);
      RepSnoc(t, i);
      trace, delays := trace + ev + [Sleep(d)], delays + [d];
    }
    done := true;
    assert Rep(t, Max(a.clicksPerCycle, 0)) == Rep(t, a.clicksPerCycle);
    FollowsIsPrefix(ClickLog(trace), delays, Rep(t, a.clicksPerCycle));
  }

  /**
   * Step `i` of a pass, appended to the pass so far: its clicks when it is
   * enabled, nothing when it is not. `ok` is false when a flag read came back
   * `false`, which leaves a prefix of the pass.
   */
  method StepOfPass(flag: Flag, base: nat, steps: seq<Action>, i: nat,
                    trace0: seq<Event>, delays0: seq<int>, loads0: nat)
    returns (trace: seq<Event>, delays: seq<int>, loads: nat, ok: bool)
    requires i < |steps| && Runnable(steps[i])
    requires loads0 == base + |delays0| && loads0 <= flag.stopAfter
    requires Paced(trace0, delays0) && Follows(ClickLog(trace0), delays0, Flatten(ActionPlans(steps)[..i]))
    ensures Paced(trace, delays)
    ensures ok <==> loads <= flag.stopAfter
    ensures loads <= flag.stopAfter + 1
    ensures loads == base + |delays| + (if ok then 0 else 1)
    ensures ok ==> Follows(ClickLog(trace), delays, Flatten(ActionPlans(steps)[..i + 1]))
    ensures !ok ==> FollowsPrefix(ClickLog(trace), delays, PassPlan(steps)) && |delays| < |PassPlan(steps)|
  {
    var t2: seq<Event>, d2: seq<int> := [], [];
    loads, ok := loads0, true;
    if steps[i].enabled {
      t2, d2, loads, ok := RunStep(flag, loads0, steps[i]);
      if !ok {
        PacedAppend(trace0, delays0, t2, d2);
        CutInFlatten(ClickLog(trace0), delays0, ClickLog(t2), d2, ActionPlans(steps), i);
        trace, delays := trace0 + t2, delays0 + d2;
        return;
      }
    }
    ActionSnoc(trace0, delays0, t2, d2, steps, i);
    trace, delays := trace0 + t2, delays0 + d2;
  }

  /** One pass over the enabled steps; it stops mid-step as soon as a flag read is `false`. */
  method RunPass(flag: Flag, loads0: nat, steps: seq<Action>)
    returns (trace: seq<Event>, delays: seq<int>, loads: nat, done: bool)
    requires loads0 <= flag.stopAfter
    requires forall i :: 0 <= i < |steps| ==> Runnable(steps[i])
    ensures Paced(trace, delays)
    ensures done <==> loads <= flag.stopAfter
    ensures loads <= flag.stopAfter + 1
    ensures loads == loads0 + |delays| + (if done then 0 else 1)
    ensures done ==> Follows(ClickLog(trace), delays, PassPlan(steps))
    ensures FollowsPrefix(ClickLog(trace), delays, PassPlan(steps))
    ensures !done ==> |delays| < |PassPlan(steps)|
  {
    trace, delays, loads := [], [], loads0;
    assert Sum([]) == 0;
    for i := 0 to |steps|
      invariant loads == loads0 + |delays| && loads <= flag.stopAfter
      invariant Paced(trace, delays)
      invariant Follows(ClickLog(trace), delays, Flatten(ActionPlans(steps)[..i]))
    {
      var ok;
      trace, delays, loads, ok := StepOfPass(flag, loads0, steps, i, trace, delays, loads);
      if !ok {
        done := false;
        return;
      }
    }
    done := true;
    assert ActionPlans(steps)[..|steps|] == ActionPlans(steps);
    FollowsIsPrefix(ClickLog(trace), delays, PassPlan(steps));
  }

  /** A run of `k` whole passes followed by part of a pass follows a prefix of `k + 1` passes. */
  lemma PassPart(trace: seq<Event>, delays: seq<int>, t2: seq<Event>, d2: seq<int>, p: seq<Target>, k: nat)
    requires Paced(trace, delays) && Follows(ClickLog(trace), delays, Repeat(p, k))
    requires Paced(t2, d2) && FollowsPrefix(ClickLog(t2), d2, p)
    ensures Paced(trace + t2, delays + d2)
    ensures FollowsPrefix(ClickLog(trace + t2), delays + d2, Repeat(p, k + 1))
  {
    PacedAppend(trace, delays, t2, d2);
    var pre := p[..|ClickLog(t2)|];
    FollowsAppend(ClickLog(trace), delays, Repeat(p, k), ClickLog(t2), d2, pre);
    FollowsPrefixOfRepeat(ClickLog(trace + t2), delays + d2, p, k, pre);
  }

  /** Flag reads outnumber clicks: each click had a read of its own, and each pass one more. */
  lemma CountClicks(delays: seq<int>, d2: seq<int>, before: nat, after: nat)
    requires |delays| < before && before + |d2| <= after
    ensures |delays + d2| < after
  {
  }

  /** A finished run of `k` passes also follows a prefix of `k + 1` passes. */
  lemma WholePasses(log: seq<ClickAt>, delays: seq<int>, p: seq<Target>, k: nat)
    requires Follows(log, delays, Repeat(p, k))
    ensures FollowsPrefix(log, delays, Repeat(p, k + 1))
  {
    FollowsIsPrefix(log, delays, Repeat(p, k));
    RepeatPrefixOf(p, k);
    FollowsPrefixMono(log, delays, Repeat(p, k), Repeat(p, k + 1));
  }

  /** One iteration of the outer loop after its flag read: a pass, appended to the run so far. */
  method NextPass(flag: Flag, steps: seq<Action>, trace0: seq<Event>, delays0: seq<int>, loads0: nat, passes: nat)
    returns (trace: seq<Event>, delays: seq<int>, loads: nat, done: bool)
    requires forall i :: 0 <= i < |steps| ==> Runnable(steps[i])
    requires loads0 <= flag.stopAfter && |delays0| < loads0
    requires Paced(trace0, delays0) && Follows(ClickLog(trace0), delays0, Repeat(PassPlan(steps), passes))
    ensures Paced(trace, delays) && |delays| < loads && loads0 <= loads
    ensures done <==> loads <= flag.stopAfter
    ensures loads <= flag.stopAfter + 1
    ensures done ==> Follows(ClickLog(trace), delays, Repeat(PassPlan(steps), passes + 1))
    ensures FollowsPrefix(ClickLog(trace), delays, Repeat(PassPlan(steps), passes + 1))
    ensures done ==> loads == loads0 + |PassPlan(steps)|
    ensures !done ==> loads <= loads0 + |PassPlan(steps)|
  {
    var t2, d2;
    t2, d2, loads, done := RunPass(flag, loads0, steps);
    CountClicks(delays0, d2, loads0, loads);
    if done {
      PassSnoc(trace0, delays0, t2, d2, steps, passes);
      FollowsIsPrefix(ClickLog(trace0 + t2), delays0 + d2, Repeat(PassPlan(steps), passes + 1));
    } else {
      PassPart(trace0, delays0, t2, d2, PassPlan(steps), passes);
    }
    trace, delays := trace0 + t2, delays0 + d2;
  }

  /** The state of the outer loop between passes: `passes` whole passes, and every flag read so far `true`. */
  predicate Running(flag: Flag, steps: seq<Action>, limit: Option<int>,
                    trace: seq<Event>, delays: seq<int>, loads: nat, passes: nat, left: Option<int>) {
    loads <= flag.stopAfter && |delays| <= loads && loads == ClickReads(steps, passes) &&
    Paced(trace, delays) && Follows(ClickLog(trace), delays, Repeat(PassPlan(steps), passes)) &&
    (left.Some? <==> limit.Some?) &&
    (limit.Some? ==> left.value == limit.value - passes && passes < Rounds(limit.value))
  }

  /** How a run of the outer loop ended, as `RunSequence` states it. */
  predicate Ended(flag: Flag, steps: seq<Action>, limit: Option<int>,
                  trace: seq<Event>, delays: seq<int>, loads: nat, exit: Exit, passes: nat) {
    Paced(trace, delays) &&
    (exit == Cancelled <==> loads > flag.stopAfter) &&
    |delays| < loads <= flag.stopAfter + 1 &&
    FollowsPrefix(ClickLog(trace), delays, Repeat(PassPlan(steps), passes + 1)) &&
    (exit == Finished ==> limit.Some? && passes == Rounds(limit.value) &&
                          Follows(ClickLog(trace), delays, Repeat(PassPlan(steps), passes))) &&
    (exit == Cancelled && limit.Some? ==> passes < Rounds(limit.value)) &&
    (exit == Finished ==> loads == ClickReads(steps, passes)) &&
    (limit.Some? ==> (exit == Finished <==> ClickReads(steps, Rounds(limit.value)) <= flag.stopAfter))
  }

  /**
   * One iteration of the outer loop: its flag read, a pass, and the cycle
   * counter. `ended` is how the loop ends, if it does.
   */
  method Turn(flag: Flag, steps: seq<Action>, limit: Option<int>,
              trace0: seq<Event>, delays0: seq<int>, loads0: nat, passes0: nat, left0: Option<int>)
    returns (trace: seq<Event>, delays: seq<int>, loads: nat, passes: nat, left: Option<int>, ended: Option<Exit>)
    requires forall i :: 0 <= i < |steps| ==> Runnable(steps[i])
    requires limit.Some? ==> limit.value > I32Min
    requires Running(flag, steps, limit, trace0, delays0, loads0, passes0, left0)
    ensures ended.None? ==> Running(flag, steps, limit, trace, delays, loads, passes, left) && loads0 < loads
    ensures ended.Some? ==> Ended(flag, steps, limit, trace, delays, loads, ended.value, passes)
  {
    var p := PassPlan(steps);
    trace, delays, loads, passes, left := trace0, delays0, loads0, passes0, left0;
    if !flag.Load(loads) {
      if limit.Some? {
        ClickReadsMono(steps, passes + 1, Rounds(limit.value));
      }
      loads, ended := loads + 1, Some(Cancelled);
      WholePasses(ClickLog(trace), delays, p, passes);
      return;
    }
    loads := loads + 1;
    var done;
    trace, delays, loads, done := NextPass(flag, steps, trace, delays, loads, passes);
    if !done {
      if limit.Some? {
        ClickReadsMono(steps, passes + 1, Rounds(limit.value));
      }
      ended := Some(Cancelled);
      return;
    }
    passes := passes + 1;
    ended := None;
    if left.Some? {
      left := Some(left.value - 1);
      if left.value <= 0 {
        ended := Some(Finished);
        WholePasses(ClickLog(trace), delays, p, passes);
      }
    }
  }

  /**
   * The outer loop: passes over the enabled steps until a flag read is `false`
   * or the cycle limit, decremented after each pass, reaches `<= 0`. Every click
   * is preceded by a `true` read of the flag of its own, and every pass by one
   * more, so a limited run finishes exactly when the flag stays set for all the
   * reads of the passes it asks for.
   */
  method RunSequence(flag: Flag, steps: seq<Action>, limit: Option<int>)
    returns (trace: seq<Event>, delays: seq<int>, loads: nat, exit: Exit, passes: nat)
    requires forall i :: 0 <= i < |steps| ==> Runnable(steps[i])
    requires limit.Some? ==> limit.value > I32Min
    ensures Paced(trace, delays)
    ensures exit == Cancelled <==> loads > flag.stopAfter
    ensures |delays| < loads <= flag.stopAfter + 1
    ensures FollowsPrefix(ClickLog(trace), delays, Repeat(PassPlan(steps), passes + 1))
    ensures exit == Finished ==> limit.Some? && passes == Rounds(limit.value) &&
                                 Follows(ClickLog(trace), delays, Repeat(PassPlan(steps), passes))
    ensures exit == Cancelled && limit.Some? ==> passes < Rounds(limit.value)
    ensures exit == Finished ==> loads == ClickReads(steps, passes)
    ensures limit.Some? ==> (exit == Finished <==> ClickReads(steps, Rounds(limit.value)) <= flag.stopAfter)
  {
    trace, delays, loads, passes := [], [], 0, 0;
    var left := limit;
    assert Sum([]) == 0;
    while true
      invariant Running(flag, steps, limit, trace, delays, loads, passes, left)
      decreases flag.stopAfter - loads
    {
      var ended;
      trace, delays, loads, passes, left, ended := Turn(flag, steps, limit, trace, delays, loads, passes, left);
      if ended.Some? {
        exit := ended.value;
        return;
      }
    }
  }

  /** The worker thread, on the copy of the steps and the limit `start` hands it. */
  method Job(flag: Flag, steps: seq<Action>, sequenceCycles: Option<int>, infiniteCycles: bool)
    returns (trace: seq<Event>, delays: seq<int>, loads: nat, exit: Exit, passes: nat)
    requires forall i :: 0 <= i < |steps| ==> Runnable(steps[i])
    requires CycleLimit(infiniteCycles, sequenceCycles).Some? ==> sequenceCycles.value > I32Min
    ensures Paced(trace, delays)
    ensures exit == Cancelled <==> loads > flag.stopAfter
    ensures |delays| < loads <= flag.stopAfter + 1
    ensures FollowsPrefix(ClickLog(trace), delays, Repeat(PassPlan(steps), passes + 1))
    ensures exit == Finished ==> !infiniteCycles && sequenceCycles.Some? && passes == Rounds(sequenceCycles.value) &&
                                 Follows(ClickLog(trace), delays, Repeat(PassPlan(steps), passes))
    ensures infiniteCycles || sequenceCycles.None? ==> exit == Cancelled
    ensures exit == Finished ==> loads == ClickReads(steps, passes)
    ensures !infiniteCycles && sequenceCycles.Some? ==>
      (exit == Finished <==> ClickReads(steps, Rounds(sequenceCycles.value)) <= flag.stopAfter)
  {
    trace, delays, loads, exit, passes := RunSequence(flag, steps, CycleLimit(infiniteCycles, sequenceCycles));
  }

  /** More passes take more flag reads. */
  lemma {:induction false} ClickReadsMono(steps: seq<Action>, a: nat, b: nat)
    requires a <= b
    ensures ClickReads(steps, a) <= ClickReads(steps, b)
    decreases b
  {
    if a < b {
      ClickReadsMono(steps, a, b - 1);
    }
  }

  /** Each pass costs the same: one read before it and one before each of its clicks. */
  lemma {:induction false} ClickReadsProduct(steps: seq<Action>, n: nat)
    ensures ClickReads(steps, n) == n * (1 + |PassPlan(steps)|)
  {
    if n > 0 {
      ClickReadsProduct(steps, n - 1);
    }
  }

  /** `k` passes are a prefix of `k + 1` passes. */
  lemma RepeatPrefixOf(p: seq<Target>, k: nat)
    ensures |Repeat(p, k)| <= |Repeat(p, k + 1)| && Repeat(p, k + 1)[..|Repeat(p, k)|] == Repeat(p, k)
  {
    assert Repeat(p, k + 1) == Repeat(p, k) + p;
  }
}
