/**
 * The observable behaviour of a click job. Every variant of the worker thread
 * talks to the outside world only through pointer moves, clicks and sleeps; the
 * model records those calls, in order, as a trace of `Event`s. The cancellation
 * flag and the click plan a run is expected to follow are defined here as well.
 */
module Events {
  import opened Geometry

  datatype Event =
    | MoveTo(p: Point)                                         // enigo `mouse_move_to`
    | HumanMove(from: Point, to: Point)                        // a call of `move_mouse_human`
    | HumanMoveClick(from: Point, to: Point, area: Bounds, button: Button)   // a call of `human_move_and_click`
    | Click(at: Point, button: Button)                         // enigo `mouse_click` with the pointer at `at`
    | Sleep(ms: int)                                           // `thread::sleep`

  /** One click as the user sees it: where the pointer was and which button. */
  datatype ClickAt = ClickAt(at: Point, button: Button)

  function ClicksOf(e: Event): seq<ClickAt> {
    match e
    case HumanMoveClick(_, to, _, b) => [ClickAt(to, b)]
    case Click(p, b) => [ClickAt(p, b)]
    case _ => []
  }

  /** The clicks of a trace, in order. */
  function ClickLog(t: seq<Event>): seq<ClickAt>
    decreases |t|
  {
    if t == [] then [] else ClickLog(t[..|t| - 1]) + ClicksOf(t[|t| - 1])
  }

  /** Total time slept by a trace, in milliseconds. */
  function SleepTotal(t: seq<Event>): int
    decreases |t|
  {
    if t == [] then 0
    else SleepTotal(t[..|t| - 1]) + (if t[|t| - 1].Sleep? then t[|t| - 1].ms else 0)
  }

  /** The trace of sleeping each duration of `ds` in turn. */
  function Sleeps(ds: seq<int>): (r: seq<Event>)
    ensures |r| == |ds| && forall i :: 0 <= i < |ds| ==> r[i] == Sleep(ds[i])
  {
    seq(|ds|, i requires 0 <= i < |ds| => Sleep(ds[i]))
  }

  function Sum(ds: seq<int>): int
    decreases |ds|
  {
    if ds == [] then 0 else Sum(ds[..|ds| - 1]) + ds[|ds| - 1]
  }

  lemma {:induction false} ClickLogAppend(a: seq<Event>, b: seq<Event>)
    ensures ClickLog(a + b) == ClickLog(a) + ClickLog(b)
    decreases |b|
  {
    if b == [] {
      assert a + b == a;
    } else {
      var b', x := b[..|b| - 1], b[|b| - 1];
      assert (a + b)[..|a + b| - 1] == a + b' && (a + b)[|a + b| - 1] == x;
      assert ClickLog(a + b) == ClickLog(a + b') + ClicksOf(x);
      ClickLogAppend(a, b');
      assert (ClickLog(a) + ClickLog(b')) + ClicksOf(x) == ClickLog(a) + (ClickLog(b') + ClicksOf(x));
    }
  }

  lemma {:induction false} SleepTotalAppend(a: seq<Event>, b: seq<Event>)
    ensures SleepTotal(a + b) == SleepTotal(a) + SleepTotal(b)
    decreases |b|
  {
    if b == [] {
      assert a + b == a;
    } else {
      var b' := b[..|b| - 1];
      assert (a + b)[..|a + b| - 1] == a + b';
      SleepTotalAppend(a, b');
    }
  }

  /** Sleeping never clicks, and sleeps for exactly the sum of the durations. */
  lemma {:induction false} SleepsFacts(ds: seq<int>)
    ensures ClickLog(Sleeps(ds)) == []
    ensures SleepTotal(Sleeps(ds)) == Sum(ds)
    decreases |ds|
  {
    if ds != [] {
      var ds' := ds[..|ds| - 1];
      assert Sleeps(ds)[..|ds| - 1] == Sleeps(ds');
      SleepsFacts(ds');
    }
  }

  lemma {:induction false} SumAppend(a: seq<int>, b: seq<int>)
    ensures Sum(a + b) == Sum(a) + Sum(b)
    decreases |b|
  {
    if b == [] {
      assert a + b == a;
    } else {
      assert (a + b)[..|a + b| - 1] == a + b[..|b| - 1];
      SumAppend(a, b[..|b| - 1]);
    }
  }

  /* ----------------------------- Plans ----------------------------- */

  /**
   * What one click is expected to do: land inside `bounds` with `button`, and be
   * followed by a delay sampled from `lo..=hi` milliseconds.
   */
  datatype Target = Target(bounds: Bounds, button: Button, lo: int, hi: int)

  predicate Hits(c: ClickAt, t: Target) { t.bounds.Contains(c.at) && c.button == t.button }

  /**
   * The clicks, and the delays sampled after them, match the plan one for one:
   * click `i` lands in target `i` with its button and is followed by a delay in
   * that target's range.
   */
  predicate Follows(log: seq<ClickAt>, delays: seq<int>, plan: seq<Target>) {
    |log| == |plan| && |delays| == |plan| &&
    forall i :: 0 <= i < |plan| ==> Hits(log[i], plan[i]) && plan[i].lo <= delays[i] <= plan[i].hi
  }

  /** The clicks match a prefix of the plan (a run that was cancelled part-way). */
  predicate FollowsPrefix(log: seq<ClickAt>, delays: seq<int>, plan: seq<Target>) {
    |log| <= |plan| && Follows(log, delays, plan[..|log|])
  }

  /** `n` copies of one target; none when `n <= 0` (a Rust `for _ in 0..n` with `n <= 0`). */
  function Rep(t: Target, n: int): (r: seq<Target>)
    ensures |r| == Max(n, 0) && forall i :: 0 <= i < |r| ==> r[i] == t
  {
    if n <= 0 then [] else seq(n, _ => t)
  }

  /** `k` passes over the same plan. */
  function Repeat(p: seq<Target>, k: nat): seq<Target> {
    if k == 0 then [] else Repeat(p, k - 1) + p
  }

  /** The concatenation of the per-step plans, in step order. */
  function Flatten(parts: seq<seq<Target>>): seq<Target>
    decreases |parts|
  {
    if parts == [] then [] else Flatten(parts[..|parts| - 1]) + parts[|parts| - 1]
  }

  lemma FollowsSnoc(log: seq<ClickAt>, delays: seq<int>, plan: seq<Target>, c: ClickAt, d: int, t: Target)
    requires Follows(log, delays, plan) && Hits(c, t) && t.lo <= d <= t.hi
    ensures Follows(log + [c], delays + [d], plan + [t])
  {
  }

  /** Runs that follow two plans, one after the other, follow the concatenated plan. */
  lemma FollowsAppend(log1: seq<ClickAt>, d1: seq<int>, p1: seq<Target>, log2: seq<ClickAt>, d2: seq<int>, p2: seq<Target>)
    requires Follows(log1, d1, p1) && Follows(log2, d2, p2)
    ensures Follows(log1 + log2, d1 + d2, p1 + p2)
  {
    var log, d, p := log1 + log2, d1 + d2, p1 + p2;
    forall i | 0 <= i < |p|
      ensures Hits(log[i], p[i]) && p[i].lo <= d[i] <= p[i].hi
    {
      if i >= |p1| {
        assert log[i] == log2[i - |p1|] && d[i] == d2[i - |p1|] && p[i] == p2[i - |p1|];
      }
    }
  }

  /** A full run of `p1` followed by a run cut short in `p2` is a run cut short in `p1 + p2`. */
  lemma FollowsPrefixAppend(log1: seq<ClickAt>, d1: seq<int>, p1: seq<Target>, log2: seq<ClickAt>, d2: seq<int>, p2: seq<Target>)
    requires Follows(log1, d1, p1) && FollowsPrefix(log2, d2, p2)
    ensures FollowsPrefix(log1 + log2, d1 + d2, p1 + p2)
  {
    FollowsAppend(log1, d1, p1, log2, d2, p2[..|log2|]);
    assert (p1 + p2)[..|log1 + log2|] == p1 + p2[..|log2|];
  }

  /** Following a prefix of a prefix of a plan is following a prefix of the plan. */
  lemma FollowsPrefixMono(log: seq<ClickAt>, d: seq<int>, p: seq<Target>, q: seq<Target>)
    requires FollowsPrefix(log, d, p) && |p| <= |q| && q[..|p|] == p
    ensures FollowsPrefix(log, d, q)
  {
    assert q[..|log|] == p[..|log|];
  }

  lemma RepSnoc(t: Target, n: nat)
    ensures Rep(t, n + 1) == Rep(t, n) + [t]
  {
  }

  lemma {:induction false} FlattenSnoc(parts: seq<seq<Target>>, i: nat)
    requires i < |parts|
    ensures Flatten(parts[..i + 1]) == Flatten(parts[..i]) + parts[i]
  {
    assert parts[..i + 1][..i] == parts[..i];
  }

  /** The plan of the first `i` steps, followed by part of step `i`, is a prefix of the whole pass. */
  lemma {:induction false} FlattenPrefix(parts: seq<seq<Target>>, i: nat, j: nat)
    requires i < |parts| && j <= |parts[i]|
    ensures var pre := Flatten(parts[..i]) + parts[i][..j];
      |pre| <= |Flatten(parts)| && Flatten(parts)[..|pre|] == pre
    decreases |parts|
  {
    var n := |parts|;
    if i == n - 1 {
      assert parts[..n] == parts;
    } else {
      FlattenPrefix(parts[..n - 1], i, j);
      assert parts[..n - 1][..i] == parts[..i];
      assert parts[..n - 1][i] == parts[i];
    }
  }

  /** Following a prefix of one more pass. */
  lemma FollowsPrefixOfRepeat(log: seq<ClickAt>, delays: seq<int>, p: seq<Target>, k: nat, pre: seq<Target>)
    requires Follows(log, delays, Repeat(p, k) + pre)
    requires |pre| <= |p| && p[..|pre|] == pre
    ensures FollowsPrefix(log, delays, Repeat(p, k + 1))
  {
    var whole := Repeat(p, k + 1);
    assert whole == Repeat(p, k) + p;
    assert whole[..|log|] == Repeat(p, k) + pre;
  }

  /** Any prefix of a run that follows a plan follows a prefix of it. */
  lemma FollowsIsPrefix(log: seq<ClickAt>, delays: seq<int>, plan: seq<Target>)
    requires Follows(log, delays, plan)
    ensures FollowsPrefix(log, delays, plan)
  {
    assert plan[..|log|] == plan;
  }

  /** A run that followed `plan` up to here, plus part of a later piece, follows a prefix of the whole. */
  lemma CutInFlatten(log: seq<ClickAt>, delays: seq<int>, log2: seq<ClickAt>, d2: seq<int>, parts: seq<seq<Target>>, i: nat)
    requires i < |parts|
    requires Follows(log, delays, Flatten(parts[..i])) && FollowsPrefix(log2, d2, parts[i])
    ensures FollowsPrefix(log + log2, delays + d2, Flatten(parts))
    ensures |d2| < |parts[i]| ==> |delays + d2| < |Flatten(parts)|
  {
    FollowsPrefixAppend(log, delays, Flatten(parts[..i]), log2, d2, parts[i]);
    FlattenPrefix(parts, i, |parts[i]|);
    assert parts[i][..|parts[i]|] == parts[i];
    FollowsPrefixMono(log + log2, delays + d2, Flatten(parts[..i]) + parts[i], Flatten(parts));
  }

  /* -------------------------- Run flag -------------------------- */

  /**
   * The `running` flag of one job. It starts true and is only ever cleared (by
   * `stop` or `pause`), never set again, so the values the worker reads are
   * `stopAfter` times `true` followed by `false` for ever. `Load(k)` is the
   * value of the `k`-th read (counting from 0).
   */
  datatype Flag = Flag(stopAfter: nat) {
    predicate Load(k: nat) { k < stopAfter }
  }

  /** How a job's worker loop ended. */
  datatype Exit =
    | Finished    // it left the loop on its own: a click or cycle limit was reached
    | Cancelled   // it read the run flag as false
}
