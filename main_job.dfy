/**
 * The worker thread started by `ClickJob::spawn` in src/main.rs (lines 87-214).
 *
 * The thread re-reads the shared configuration at the top of its outer loop and
 * idles for 150 ms while there is nothing usable to do. As soon as the
 * configuration is usable it commits to it: the single-mode arm clicks until
 * stopped or until its click budget is spent, and the sequence-mode arm runs
 * pass after pass over the steps. Neither arm ever goes back to the outer loop.
 * Delays are sampled in milliseconds and slept in chunks of at most 50 ms, and
 * the run flag is read before every chunk.
 */
module MainJob {
  import opened Wrappers
  import opened Geometry
  import opened Events

  /** The pause while the configuration cannot be used, in ms. */
  const IdleMs: int := 150
  /** The longest single sleep inside `sleep_between`, in ms. */
  const ChunkMs: nat := 50
  /** `secs.max(0.01)`: the shortest wait `sleep_between` performs, in ms. */
  const MinWaitMs: int := 10
  /** How far above and to the left of the region the very first move starts, in px. */
  const EntryOffset: int := 40

  /** One step of a click sequence. The interval is in milliseconds. */
  datatype SequenceStep = SequenceStep(name: string, bounds: Bounds, clicks: nat, button: Button, minMs: int, maxMs: int)

  /** The job configuration. `None` means no limit. */
  datatype JobMode =
    | Single(bounds: Option<Bounds>, button: Button, minMs: int, maxMs: int, finiteClicks: Option<nat>)
    | Sequence(steps: seq<SequenceStep>, cycles: Option<nat>)

  /* ------------------------- Click targets ------------------------- */

  /** `from_opt.unwrap_or((b.min_x - 40, b.min_y - 40))`: a point just outside the region. */
  function EntryPoint(b: Bounds): (p: Point)
    ensures p.x < b.minX && p.y < b.minY && !b.Contains(p)
    ensures b.minX - p.x == EntryOffset && b.minY - p.y == EntryOffset
  {
    Point(b.minX - EntryOffset, b.minY - EntryOffset)
  }

  /** A click target whose delay interval is ordered, whichever way round `a` and `b` were given. */
  function Interval(bounds: Bounds, button: Button, a: int, b: int): (t: Target)
    ensures t.bounds == bounds && t.button == button
    ensures t.lo <= t.hi
    ensures (t.lo == a && t.hi == b) || (t.lo == b && t.hi == a)
  {
    if a <= b then Target(bounds, button, a, b) else Target(bounds, button, b, a)
  }

  function StepTarget(s: SequenceStep): Target {
    Interval(s.bounds, s.button, s.minMs, s.maxMs)
  }

  /** What one step contributes to a pass: `clicks` clicks, or none when its region is invalid. */
  function StepPlan(s: SequenceStep): seq<Target> {
    if s.bounds.IsValid() then Rep(StepTarget(s), s.clicks) else []
  }

  function StepPlans(steps: seq<SequenceStep>): (r: seq<seq<Target>>)
    ensures |r| == |steps| && forall i :: 0 <= i < |steps| ==> r[i] == StepPlan(steps[i])
  {
    seq(|steps|, i requires 0 <= i < |steps| => StepPlan(steps[i]))
  }

  /** One pass over the steps, in list order. */
  function PassPlan(steps: seq<SequenceStep>): seq<Target> {
    Flatten(StepPlans(steps))
  }

  /** `Some(0)` and `Some(1)` both mean one pass: the counter is tested for 0 before it is decremented. */
  function Passes(cycles: nat): (n: nat)
    ensures n >= 1 && (cycles >= 1 ==> n == cycles)
  {
    if cycles == 0 then 1 else cycles
  }

  /** Whether the outer loop can start working on this configuration instead of idling. */
  predicate Usable(m: JobMode) {
    match m
    case Single(b, _, _, _, _) => b.Some? && b.value.IsValid()
    case Sequence(steps, _) => |steps| > 0
  }

  /** Whether the configuration limits the work, so that the job can finish on its own. */
  predicate Limited(m: JobMode) {
    match m
    case Single(_, _, _, _, finite) => finite.Some?
    case Sequence(_, cycles) => cycles.Some?
  }

  /**
   * Every click a run on `m` may make, in order: the click budget or the passes the
   * configuration asks for, or `k` of them when it sets no limit.
   */
  function FullPlan(m: JobMode, k: nat): seq<Target> {
    match m
    case Single(b, button, lo, hi, finite) =>
      if b.Some? then Rep(Interval(b.value, button, lo, hi), finite.GetOr(k)) else []
    case Sequence(steps, cycles) =>
      Repeat(PassPlan(steps), if cycles.Some? then Passes(cycles.value) else k)
  }

  /* ------------------------- Plan lemmas ------------------------- */

  function ValidClicks(steps: seq<SequenceStep>): nat
    decreases |steps|
  {
    if steps == [] then 0
    else ValidClicks(steps[..|steps| - 1]) + (if steps[|steps| - 1].bounds.IsValid() then steps[|steps| - 1].clicks else 0)
  }

  /** A pass makes exactly `clicks` clicks for each step with a valid region, and none for the others. */
  lemma {:induction false} PassPlanLength(steps: seq<SequenceStep>)
    ensures |PassPlan(steps)| == ValidClicks(steps)
    decreases |steps|
  {
    if steps != [] {
      var n := |steps|;
      var parts := StepPlans(steps);
      assert parts[..n] == parts;
      FlattenSnoc(parts, n - 1);
      assert parts[..n - 1] == StepPlans(steps[..n - 1]);
      PassPlanLength(steps[..n - 1]);
    }
  }

  lemma {:induction false} RepeatLength(p: seq<Target>, k: nat)
    ensures |Repeat(p, k)| == k * |p|
  {
    if k > 0 {
      RepeatLength(p, k - 1);
    }
  }

  /** Fewer passes are a prefix of more passes. */
  lemma {:induction false} RepeatPrefix(p: seq<Target>, a: nat, b: nat)
    requires a <= b
    ensures |Repeat(p, a)| <= |Repeat(p, b)| && Repeat(p, b)[..|Repeat(p, a)|] == Repeat(p, a)
    decreases b
  {
    if a < b {
      RepeatPrefix(p, a, b - 1);
      assert Repeat(p, b) == Repeat(p, b - 1) + p;
    }
  }

  /** Two valid steps of three clicks each, run with `cycles = Some(2)`, make twelve clicks. */
  lemma TwelveClicks(s1: SequenceStep, s2: SequenceStep)
    requires s1.bounds.IsValid() && s2.bounds.IsValid() && s1.clicks == 3 && s2.clicks == 3
    ensures |FullPlan(Sequence([s1, s2], Some(2)), 0)| == 12
  {
    assert [s1, s2][..1] == [s1];
    assert [s1][..0] == [];
    assert ValidClicks([s1]) == 3;
    assert ValidClicks([s1, s2]) == 6;
    PassPlanLength([s1, s2]);
    RepeatLength(PassPlan([s1, s2]), 2);
    assert Passes(2) == 2;
  }

  /** `cycles = Some(0)` runs the list once, like `Some(1)`. */
  lemma ZeroCyclesIsOnePass(steps: seq<SequenceStep>)
    ensures FullPlan(Sequence(steps, Some(0)), 0) == PassPlan(steps)
    ensures FullPlan(Sequence(steps, Some(0)), 0) == FullPlan(Sequence(steps, Some(1)), 0)
  {
    assert Repeat(PassPlan(steps), 1) == Repeat(PassPlan(steps), 0) + PassPlan(steps);
  }

  /* ------------------------- Trace facts ------------------------- */

  /** Where `last_pos` stands after `t`, starting from `last`: the target of the latest move-and-click. */
  function LastPos(t: seq<Event>, last: Option<Point>): Option<Point>
    decreases |t|
  {
    if t == [] then last
    else if t[|t| - 1].HumanMoveClick? then Some(t[|t| - 1].to)
    else LastPos(t[..|t| - 1], last)
  }

  /**
   * Every move-and-click of `t` starts where the previous one ended; the first one
   * starts at `last`, or just outside its own region when there is none.
   */
  predicate Chained(t: seq<Event>, last: Option<Point>)
    decreases |t|
  {
    t == [] ||
    (Chained(t[..|t| - 1], last) &&
     (t[|t| - 1].HumanMoveClick? ==>
        t[|t| - 1].from == LastPos(t[..|t| - 1], last).GetOr(EntryPoint(t[|t| - 1].area))))
  }

  lemma {:induction false} LastPosAppend(a: seq<Event>, b: seq<Event>, last: Option<Point>)
    ensures LastPos(a + b, last) == LastPos(b, LastPos(a, last))
    decreases |b|
  {
    if b == [] {
      assert a + b == a;
    } else {
      assert (a + b)[..|a + b| - 1] == a + b[..|b| - 1];
      LastPosAppend(a, b[..|b| - 1], last);
    }
  }

  lemma {:induction false} ChainedAppend(a: seq<Event>, b: seq<Event>, last: Option<Point>)
    requires Chained(a, last) && Chained(b, LastPos(a, last))
    ensures Chained(a + b, last) && LastPos(a + b, last) == LastPos(b, LastPos(a, last))
    decreases |b|
  {
    LastPosAppend(a, b, last);
    if b == [] {
      assert a + b == a;
    } else {
      var b' := b[..|b| - 1];
      assert (a + b)[..|a + b| - 1] == a + b';
      ChainedAppend(a, b', last);
    }
  }

  /** A stretch of sleeps clicks nowhere and leaves `last_pos` alone. */
  lemma {:induction false} QuietFacts(s: seq<Event>, last: Option<Point>)
    requires forall i :: 0 <= i < |s| ==> s[i].Sleep?
    ensures ClickLog(s) == [] && Chained(s, last) && LastPos(s, last) == last
    decreases |s|
  {
    if s != [] {
      QuietFacts(s[..|s| - 1], last);
    }
  }

  /** The trace of `n` idle iterations. */
  function Idle(n: nat): (r: seq<Event>)
    ensures |r| == n && forall i :: 0 <= i < n ==> r[i] == Sleep(IdleMs)
  {
    seq(n, _ => Sleep(IdleMs))
  }

  lemma {:induction false} IdleFacts(n: nat)
    ensures ClickLog(Idle(n)) == [] && SleepTotal(Idle(n)) == IdleMs * n
    ensures Chained(Idle(n), None) && LastPos(Idle(n), None) == None
  {
    QuietFacts(Idle(n), None);
    if n > 0 {
      assert Idle(n)[..n - 1] == Idle(n - 1);
      IdleFacts(n - 1);
    }
  }

  /** The wait each sampled delay asks `sleep_between` for. */
  function Waits(delays: seq<int>): (r: seq<int>)
    ensures |r| == |delays| && forall i :: 0 <= i < |r| ==> r[i] == Max(delays[i], MinWaitMs)
  {
    seq(|delays|, i requires 0 <= i < |delays| => Max(delays[i], MinWaitMs))
  }

  lemma WaitsAppend(a: seq<int>, b: seq<int>)
    ensures Sum(Waits(a + b)) == Sum(Waits(a)) + Sum(Waits(b))
  {
    assert Waits(a + b) == Waits(a) + Waits(b);
    SumAppend(Waits(a), Waits(b));
  }

  lemma WaitsSnoc(delays: seq<int>, d: int)
    ensures Sum(Waits(delays + [d])) == Sum(Waits(delays)) + Max(d, MinWaitMs)
  {
    assert Waits(delays + [d]) == Waits(delays) + [Max(d, MinWaitMs)];
    SumAppend(Waits(delays), [Max(d, MinWaitMs)]);
    assert Sum([Max(d, MinWaitMs)]) == Sum([]) + Max(d, MinWaitMs);
  }

  /* ------------------------- sleep_between ------------------------- */

  /** How `sleep_between` cuts a wait into sleeps: 50 ms at a time, the remainder last. */
  function Split(ms: nat): seq<nat>
    decreases ms
  {
    if ms == 0 then [] else if ms <= ChunkMs then [ms] else [ChunkMs] + Split(ms - ChunkMs)
  }

  lemma {:induction false} SplitSpec(ms: nat)
    ensures Sum(Split(ms)) == ms
    ensures forall c :: c in Split(ms) ==> 1 <= c <= ChunkMs
    ensures ms > 0 ==> |Split(ms)| > 0
    decreases ms
  {
    if ms > ChunkMs {
      SplitSpec(ms - ChunkMs);
      SumAppend([ChunkMs], Split(ms - ChunkMs));
      assert Sum([ChunkMs]) == Sum([]) + ChunkMs;
    } else if ms > 0 {
      assert Sum([ms]) == Sum([]) + ms;
    }
  }

  /** The first chunk of a positive wait is 50 ms, or the whole wait when it is shorter. */
  lemma SplitStep(ms: nat)
    requires ms > 0
    ensures Split(ms) == [Min(ms, ChunkMs)] + Split(ms - Min(ms, ChunkMs))
  {
  }

  /** A wait of `ms` is slept in `ms / 50` chunks, rounded up. */
  lemma {:induction false} SplitLength(ms: nat)
    ensures |Split(ms)| == (ms + ChunkMs - 1) / ChunkMs
    decreases ms
  {
    if ms > ChunkMs {
      SplitLength(ms - ChunkMs);
    }
  }

  /** A longer wait is slept in at least as many chunks. */
  lemma {:induction false} SplitMono(a: nat, b: nat)
    requires a <= b
    ensures |Split(a)| <= |Split(b)|
    decreases b
  {
    if a > ChunkMs {
      SplitMono(a - ChunkMs, b - ChunkMs);
    }
  }

  /* ------------------------- Flag reads ------------------------- */

  /** The flag reads `sleep_between` makes for a delay of `ms` when none comes back `false`: one per chunk. */
  function Chunks(ms: int): nat {
    |Split(Max(ms, MinWaitMs))|
  }

  /** A longer delay takes at least as many reads. */
  lemma ChunksMono(d: int, h: int)
    requires d <= h
    ensures Chunks(d) <= Chunks(h)
  {
    SplitMono(Max(d, MinWaitMs), Max(h, MinWaitMs));
  }

  /**
   * The flag reads of the click rounds whose delays were `delays`, when none
   * comes back `false`: the read before each click and those of its delay.
   */
  function Reads(delays: seq<int>): nat
    decreases |delays|
  {
    if delays == [] then 0 else Reads(delays[..|delays| - 1]) + 1 + Chunks(delays[|delays| - 1])
  }

  /** The most flag reads the click rounds of `plan` can take: each delay at the top of its interval. */
  function PlanReads(plan: seq<Target>): nat
    decreases |plan|
  {
    if plan == [] then 0 else PlanReads(plan[..|plan| - 1]) + 1 + Chunks(plan[|plan| - 1].hi)
  }

  /** One more round adds its read and the reads of its delay's chunks. */
  lemma ReadsSnoc(delays: seq<int>, d: int)
    ensures Reads(delays + [d]) == Reads(delays) + 1 + Chunks(d)
  {
    assert (delays + [d])[..|delays|] == delays;
  }

  lemma {:induction false} ReadsAppend(a: seq<int>, b: seq<int>)
    ensures Reads(a + b) == Reads(a) + Reads(b)
    decreases |b|
  {
    if b == [] {
      assert a + b == a;
    } else {
      assert (a + b)[..|a + b| - 1] == a + b[..|b| - 1];
      ReadsAppend(a, b[..|b| - 1]);
    }
  }

  lemma {:induction false} PlanReadsAppend(p: seq<Target>, q: seq<Target>)
    ensures PlanReads(p + q) == PlanReads(p) + PlanReads(q)
    decreases |q|
  {
    if q == [] {
      assert p + q == p;
    } else {
      assert (p + q)[..|p + q| - 1] == p + q[..|q| - 1];
      PlanReadsAppend(p, q[..|q| - 1]);
    }
  }

  /** A prefix of a plan takes no more reads than the whole plan. */
  lemma {:induction false} PlanReadsPrefix(p: seq<Target>, k: nat)
    requires k <= |p|
    ensures PlanReads(p[..k]) <= PlanReads(p)
    decreases |p|
  {
    if k == |p| {
      assert p[..k] == p;
    } else {
      PlanReadsPrefix(p[..|p| - 1], k);
      assert p[..|p| - 1][..k] == p[..k];
    }
  }

  /** The rounds of a run that follows `plan` take no more reads than the plan allows. */
  lemma {:induction false} FollowsReads(log: seq<ClickAt>, delays: seq<int>, plan: seq<Target>)
    requires Follows(log, delays, plan)
    ensures Reads(delays) <= PlanReads(plan)
    decreases |plan|
  {
    var n := |plan|;
    if n > 0 {
      FollowsReads(log[..n - 1], delays[..n - 1], plan[..n - 1]);
      ChunksMono(delays[n - 1], plan[n - 1].hi);
    }
  }

  /** One more click of `t` allows one more round at the top of `t`'s interval. */
  lemma RepReadsSnoc(t: Target, n: nat)
    ensures PlanReads(Rep(t, n + 1)) == PlanReads(Rep(t, n)) + 1 + Chunks(t.hi)
  {
    RepSnoc(t, n);
    assert (Rep(t, n) + [t])[..n] == Rep(t, n);
  }

  /**
   * The reads of a click round of `t` that starts at read `loads`, one more
   * `true` read and `sleep_between` up to read `r`, keep a run of `|delays|`
   * rounds within its allowance and, while every read is `true`, exact.
   */
  lemma CountRound(flag: Flag, loads0: nat, loads: nat, r: nat, delays: seq<int>, d: int, t: Target)
    requires loads <= loads0 + PlanReads(Rep(t, |delays|))
    requires loads < flag.stopAfter && loads == loads0 + Reads(delays)
    requires r <= loads + 1 + Chunks(t.hi) && (r <= flag.stopAfter ==> r == loads + 1 + Chunks(d))
    ensures r <= loads0 + PlanReads(Rep(t, |delays| + 1))
    ensures r <= flag.stopAfter ==> r == loads0 + Reads(delays + [d])
  {
    RepReadsSnoc(t, |delays|);
    ReadsSnoc(delays, d);
  }

  /** The steps before `i` allow no more reads than the whole pass. */
  lemma FlattenReadsPrefix(parts: seq<seq<Target>>, i: nat)
    requires i <= |parts|
    ensures PlanReads(Flatten(parts[..i])) <= PlanReads(Flatten(parts))
  {
    if i == |parts| {
      assert parts[..i] == parts;
    } else {
      FlattenPrefix(parts, i, 0);
      assert Flatten(parts[..i]) + parts[i][..0] == Flatten(parts[..i]);
      PlanReadsPrefix(Flatten(parts), |Flatten(parts[..i])|);
    }
  }

  /**
   * The reads of step `i` of a pass, its own `true` read and its clicks up to
   * read `r`, keep the pass within its allowance and, while every read is
   * `true`, exact.
   */
  lemma CountStep(flag: Flag, loads0: nat, parts: seq<seq<Target>>, i: nat,
                  loads: nat, r: nat, delays: seq<int>, ds: seq<int>)
    requires i < |parts|
    requires loads <= loads0 + i + PlanReads(Flatten(parts[..i]))
    requires loads < flag.stopAfter && loads == loads0 + i + Reads(delays)
    requires r <= loads + 1 + PlanReads(parts[i]) && (r <= flag.stopAfter ==> r == loads + 1 + Reads(ds))
    ensures r <= loads0 + (i + 1) + PlanReads(Flatten(parts[..i + 1]))
    ensures r <= flag.stopAfter ==> r == loads0 + (i + 1) + Reads(delays + ds)
  {
    FlattenSnoc(parts, i);
    PlanReadsAppend(Flatten(parts[..i]), parts[i]);
    ReadsAppend(delays, ds);
  }

  /** The flag reads of `n` passes outside their clicks: one before each pass and one before each step. */
  function PassChecks(steps: seq<SequenceStep>, n: nat): nat {
    if n == 0 then 0 else PassChecks(steps, n - 1) + 1 + |steps|
  }

  /** The most flag reads `n` passes over `steps` can take. */
  function SequenceDemand(steps: seq<SequenceStep>, n: nat): nat {
    PassChecks(steps, n) + PlanReads(Repeat(PassPlan(steps), n))
  }

  /** One more pass allows the reads of one more pass. */
  lemma SequenceDemandSnoc(steps: seq<SequenceStep>, n: nat)
    ensures SequenceDemand(steps, n + 1) == SequenceDemand(steps, n) + 1 + |steps| + PlanReads(PassPlan(steps))
  {
    PlanReadsAppend(Repeat(PassPlan(steps), n), PassPlan(steps));
  }

  /** More passes allow more reads. */
  lemma {:induction false} SequenceDemandMono(steps: seq<SequenceStep>, a: nat, b: nat)
    requires a <= b
    ensures SequenceDemand(steps, a) <= SequenceDemand(steps, b)
    decreases b - a
  {
    if a < b {
      SequenceDemandMono(steps, a, b - 1);
      SequenceDemandSnoc(steps, b - 1);
    }
  }

  /**
   * The reads of a sequence run that started at read `base` and completed
   * `passes` passes: within what they allow and, while every read is `true`,
   * exactly the checks plus the reads of the click rounds.
   */
  ghost predicate Counted(flag: Flag, base: nat, steps: seq<SequenceStep>, delays: seq<int>, loads: nat, passes: nat) {
    loads <= base + SequenceDemand(steps, passes)
    && (loads <= flag.stopAfter ==> loads == base + PassChecks(steps, passes) + Reads(delays))
  }

  /** A pass that took the reads from `loads0` to `loads` keeps the run counted. */
  lemma CountPass(flag: Flag, base: nat, steps: seq<SequenceStep>, passes: nat,
                  loads0: nat, loads: nat, delays0: seq<int>, delays: seq<int>)
    requires Counted(flag, base, steps, delays0, loads0, passes)
    requires loads0 < loads <= loads0 + 1 + |steps| + PlanReads(PassPlan(steps))
    requires loads <= flag.stopAfter ==> loads + Reads(delays0) == loads0 + 1 + |steps| + Reads(delays)
    ensures Counted(flag, base, steps, delays, loads, passes + 1)
  {
    SequenceDemandSnoc(steps, passes);
  }

  /** Fewer clicks of `t` allow fewer reads. */
  lemma RepReadsMono(t: Target, a: nat, b: nat)
    requires a <= b
    ensures PlanReads(Rep(t, a)) <= PlanReads(Rep(t, b))
  {
    assert Rep(t, b)[..a] == Rep(t, a);
    PlanReadsPrefix(Rep(t, b), a);
  }

  /**
   * How many chunks of a `wait` are slept when the flag reads `true` exactly
   * `stopAfter - loads` more times: all of them, or one per `true` read.
   */
  function ChunksSlept(wait: nat, loads: nat, stopAfter: nat): nat {
    Min(|Split(wait)|, Max(stopAfter - loads, 0))
  }

  /**
   * How the chunk loop of `sleep_between` ends: with the wait slept in full, or
   * cut short by the first flag read that came back false (read number
   * `stopAfter`), in which case no chunk is slept after it.
   */
  lemma SleptChunks(chunks: seq<nat>, left: nat, wait: nat, loads: nat, loadsOut: nat, stopAfter: nat)
    requires wait > 0 && left <= wait && chunks + Split(left) == Split(wait)
    requires |chunks| <= Max(stopAfter - loads, 0)
    requires left == 0 ==> loadsOut == loads + |chunks|
    requires left > 0 ==> loadsOut == loads + |chunks| + 1 && loads + |chunks| >= stopAfter
    ensures chunks == Split(wait)[..ChunksSlept(wait, loads, stopAfter)]
    ensures loadsOut == loads + |chunks| + (if |chunks| < |Split(wait)| then 1 else 0)
    ensures forall c :: c in chunks ==> 1 <= c <= ChunkMs
    ensures 0 <= Sum(chunks) <= wait
    ensures loadsOut <= stopAfter ==> Sum(chunks) == wait
    ensures loads < loadsOut
    ensures loadsOut <= loads + |Split(wait)|
    ensures loadsOut <= stopAfter ==> loadsOut == loads + |Split(wait)|
  {
    SplitSpec(wait);
    SplitSpec(left);
    SumAppend(chunks, Split(left));
    assert Sum(chunks) == wait - left;
    assert chunks == Split(wait)[..|chunks|];
    forall c | c in chunks
      ensures 1 <= c <= ChunkMs
    {
      assert c in Split(wait);
    }
  }

  /** The events of the chunks `sleep_between` slept, in the terms of its contract. */
  lemma SleepOutcome(chunks: seq<nat>, left: nat, ms: int, loads: nat, loadsOut: nat, stopAfter: nat)
    requires left <= Max(ms, MinWaitMs) && chunks + Split(left) == Split(Max(ms, MinWaitMs))
    requires |chunks| <= Max(stopAfter - loads, 0)
    requires left == 0 ==> loadsOut == loads + |chunks|
    requires left > 0 ==> loadsOut == loads + |chunks| + 1 && loads + |chunks| >= stopAfter
    ensures var ev := Sleeps(chunks);
      && ev == Sleeps(Split(Max(ms, MinWaitMs))[..ChunksSlept(Max(ms, MinWaitMs), loads, stopAfter)])
      && loadsOut == loads + |ev| + (if |ev| < |Split(Max(ms, MinWaitMs))| then 1 else 0)
      && (forall i :: 0 <= i < |ev| ==> ev[i].Sleep? && 1 <= ev[i].ms <= ChunkMs)
      && loads < loadsOut
      && ClickLog(ev) == []
      && 0 <= SleepTotal(ev) <= Max(ms, MinWaitMs)
      && (loadsOut <= stopAfter ==> SleepTotal(ev) == Max(ms, MinWaitMs))
      && loadsOut <= loads + Chunks(ms)
      && (loadsOut <= stopAfter ==> loadsOut == loads + Chunks(ms))
  {
    SleptChunks(chunks, left, Max(ms, MinWaitMs), loads, loadsOut, stopAfter);
    var ev := Sleeps(chunks);
    SleepsFacts(chunks);
    forall i | 0 <= i < |ev|
      ensures ev[i].Sleep? && 1 <= ev[i].ms <= ChunkMs
    {
      assert chunks[i] in chunks;
    }
  }

  /**
   * `sleep_between`: waits `max(ms, 10)` milliseconds in the chunks of `Split`,
   * reading the flag before each chunk and stopping at the first `false`.
   * `loads` counts the flag reads made before the call.
   */
  method SleepBetween(flag: Flag, loads: nat, ms: int) returns (ev: seq<Event>, loadsOut: nat)
    ensures ev == Sleeps(Split(Max(ms, MinWaitMs))[..ChunksSlept(Max(ms, MinWaitMs), loads, flag.stopAfter)])
    ensures loadsOut == loads + |ev| + (if |ev| < |Split(Max(ms, MinWaitMs))| then 1 else 0)
    ensures forall i :: 0 <= i < |ev| ==> ev[i].Sleep? && 1 <= ev[i].ms <= ChunkMs
    ensures loads < loadsOut
    ensures ClickLog(ev) == []
    ensures 0 <= SleepTotal(ev) <= Max(ms, MinWaitMs)
    ensures loadsOut <= flag.stopAfter ==> SleepTotal(ev) == Max(ms, MinWaitMs)
    ensures loadsOut <= loads + Chunks(ms)
    ensures loadsOut <= flag.stopAfter ==> loadsOut == loads + Chunks(ms)
  {
    var wait: nat := Max(ms, MinWaitMs);
    var left: nat := wait;
    var chunks: seq<nat> := [];   // the `thread::sleep` calls made so far
    loadsOut := loads;
    while left > 0
      invariant left <= wait && chunks + Split(left) == Split(wait)
      invariant loadsOut == loads + |chunks|
      invariant |chunks| <= Max(flag.stopAfter - loads, 0)
      decreases left
    {
      if !flag.Load(loadsOut) {
        loadsOut := loadsOut + 1;
        break;
      }
      loadsOut := loadsOut + 1;
      var step: nat := Min(left, ChunkMs);
      SplitStep(left);
      chunks := chunks + [step];
      left := left - step;
    }
    SleepOutcome(chunks, left, ms, loads, loadsOut, flag.stopAfter);
    ev := Sleeps(chunks);
  }

  /* ------------------------- do_click ------------------------- */

  /**
   * `do_click`: a human-like move from the last click (or from just outside the
   * region) to a point sampled in `b`, then a click there.
   */
  method DoClick(last: Option<Point>, b: Bounds, button: Button) returns (e: Event, next: Option<Point>)
    requires b.NonEmpty()
    ensures e.HumanMoveClick? && e.from == last.GetOr(EntryPoint(b)) && e.area == b && e.button == button
    ensures b.Contains(e.to) && next == Some(e.to)
  {
    var x :| b.minX <= x <= b.maxX;
    var y :| b.minY <= y <= b.maxY;
    e := HumanMoveClick(last.GetOr(EntryPoint(b)), Point(x, y), b, button);
    next := Some(Point(x, y));
  }

  /**
   * One click round of either arm: `do_click`, a delay sampled from the target's
   * interval, then `sleep_between` on it.
   */
  method Round(flag: Flag, loads: nat, last: Option<Point>, t: Target)
    returns (ev: seq<Event>, d: int, next: Option<Point>, loadsOut: nat)
    requires t.bounds.IsValid() && t.lo <= t.hi
    ensures next.Some? && |ev| >= 1 && ev[0] == HumanMoveClick(last.GetOr(EntryPoint(t.bounds)), next.value, t.bounds, t.button)
    ensures t.bounds.Contains(next.value)
    ensures forall i :: 1 <= i < |ev| ==> ev[i].Sleep?
    ensures t.lo <= d <= t.hi
    ensures loads < loadsOut
    ensures 0 <= SleepTotal(ev) <= Max(d, MinWaitMs)
    ensures loadsOut <= flag.stopAfter ==> SleepTotal(ev) == Max(d, MinWaitMs)
    ensures loadsOut <= loads + Chunks(t.hi)
    ensures loadsOut <= flag.stopAfter ==> loadsOut == loads + Chunks(d)
  {
    var e;
    e, next := DoClick(last, t.bounds, t.button);
    d :| t.lo <= d <= t.hi;
    var s;
    s, loadsOut := SleepBetween(flag, loads, d);
    ChunksMono(d, t.hi);
    ev := [e] + s;
    SleepTotalAppend([e], s);
    assert [e][..0] == [];
  }

  /**
   * What every prefix of a run keeps: the moves are chained from `last0`, `last`
   * is where the latest click went, and the trace slept no longer than the sampled
   * delays ask for, exactly as long while no flag read has come back `false`.
   */
  predicate Sound(trace: seq<Event>, delays: seq<int>, last0: Option<Point>, last: Option<Point>, flag: Flag, loads: nat) {
    Chained(trace, last0) && last == LastPos(trace, last0) &&
    SleepTotal(trace) <= Sum(Waits(delays)) &&
    (loads <= flag.stopAfter ==> SleepTotal(trace) == Sum(Waits(delays)))
  }

  /** The events of one round: a single click at the sampled point, chained from `last`. */
  lemma RoundEvents(ev: seq<Event>, last: Option<Point>, next: Option<Point>, t: Target)
    requires next.Some? && |ev| >= 1 && ev[0] == HumanMoveClick(last.GetOr(EntryPoint(t.bounds)), next.value, t.bounds, t.button)
    requires forall i :: 1 <= i < |ev| ==> ev[i].Sleep?
    ensures ClickLog(ev) == [ClickAt(next.value, t.button)]
    ensures Chained(ev, last) && LastPos(ev, last) == next
  {
    var rest := ev[1..];
    assert ev == [ev[0]] + rest;
    QuietFacts(rest, next);
    assert [ev[0]][..0] == [];
    assert ClickLog([ev[0]]) == [ClickAt(next.value, t.button)];
    ClickLogAppend([ev[0]], rest);
    assert Chained([ev[0]], last);
    ChainedAppend([ev[0]], rest, last);
  }

  /** A round extends a sound run by one click of the planned target. */
  lemma RoundSnoc(trace: seq<Event>, delays: seq<int>, plan: seq<Target>, last0: Option<Point>, last: Option<Point>,
                  flag: Flag, loads: nat, t: Target, ev: seq<Event>, d: int, next: Option<Point>, loadsOut: nat)
    requires Sound(trace, delays, last0, last, flag, loads) && Follows(ClickLog(trace), delays, plan)
    requires next.Some? && |ev| >= 1 && ev[0] == HumanMoveClick(last.GetOr(EntryPoint(t.bounds)), next.value, t.bounds, t.button)
    requires t.bounds.Contains(next.value)
    requires forall i :: 1 <= i < |ev| ==> ev[i].Sleep?
    requires t.lo <= d <= t.hi
    requires loads < loadsOut
    requires 0 <= SleepTotal(ev) <= Max(d, MinWaitMs)
    requires loadsOut <= flag.stopAfter ==> SleepTotal(ev) == Max(d, MinWaitMs)
    ensures Sound(trace + ev, delays + [d], last0, next, flag, loadsOut)
    ensures Follows(ClickLog(trace + ev), delays + [d], plan + [t])
  {
    RoundEvents(ev, last, next, t);
    ChainedAppend(trace, ev, last0);
    ClickLogAppend(trace, ev);
    SleepTotalAppend(trace, ev);
    WaitsSnoc(delays, d);
    FollowsSnoc(ClickLog(trace), delays, plan, ClickAt(next.value, t.button), d, t);
  }

  /* ------------------------- The two arms ------------------------- */

  /** The empty run is sound. */
  lemma SoundEmpty(last0: Option<Point>, flag: Flag, loads: nat)
    ensures Sound([], [], last0, last0, flag, loads)
  {
    assert Waits([]) == [];
  }

  /** Two sound runs, the second starting where the first left off, make a sound run. */
  lemma SoundAppend(t1: seq<Event>, d1: seq<int>, t2: seq<Event>, d2: seq<int>,
                    last0: Option<Point>, last1: Option<Point>, last2: Option<Point>, flag: Flag, r1: nat, r2: nat)
    requires Sound(t1, d1, last0, last1, flag, r1) && Sound(t2, d2, last1, last2, flag, r2) && r1 <= r2
    ensures Sound(t1 + t2, d1 + d2, last0, last2, flag, r2)
    ensures ClickLog(t1 + t2) == ClickLog(t1) + ClickLog(t2)
  {
    ChainedAppend(t1, t2, last0);
    SleepTotalAppend(t1, t2);
    ClickLogAppend(t1, t2);
    WaitsAppend(d1, d2);
  }

  /** A run of `|delays|` rounds of `t` after `loads0` reads: sound, on plan and counted. */
  ghost predicate Clicking(flag: Flag, loads0: nat, last0: Option<Point>, t: Target,
                           trace: seq<Event>, delays: seq<int>, last: Option<Point>, loads: nat)
  {
    loads0 <= loads && loads <= loads0 + PlanReads(Rep(t, |delays|)) &&
    (loads <= flag.stopAfter ==> loads == loads0 + Reads(delays)) &&
    Sound(trace, delays, last0, last, flag, loads) &&
    Follows(ClickLog(trace), delays, Rep(t, |delays|))
  }

  /**
   * One more round of a run whose read at `loads1` came back `true`: the run
   * grows by one click and stays sound, on plan and counted.
   */
  method ClickRound(flag: Flag, loads0: nat, last0: Option<Point>, t: Target,
                    trace0: seq<Event>, delays0: seq<int>, last1: Option<Point>, loads1: nat)
    returns (trace: seq<Event>, delays: seq<int>, last: Option<Point>, loads: nat)
    requires t.bounds.IsValid() && t.lo <= t.hi
    requires Clicking(flag, loads0, last0, t, trace0, delays0, last1, loads1) && loads1 < flag.stopAfter
    ensures Clicking(flag, loads0, last0, t, trace, delays, last, loads)
    ensures |delays| == |delays0| + 1 && loads1 + 1 < loads
  {
    var ev, d, next, r := Round(flag, loads1 + 1, last1, t);
    CountRound(flag, loads0, loads1, r, delays0, d, t);
    RoundSnoc(trace0, delays0, Rep(t, |delays0|), last0, last1, flag, loads1 + 1, t, ev, d, next, r);
    RepSnoc(t, |delays0|);
    trace, delays, last, loads := trace0 + ev, delays0 + [d], next, r;
  }

  /**
   * The single-mode arm for a valid region `b`: click until the flag reads false
   * or the click budget `finite` is spent. `loads0` flag reads were made before.
   */
  method RunSingle(flag: Flag, loads0: nat, last0: Option<Point>, b: Bounds, button: Button,
                   minMs: int, maxMs: int, finite: Option<nat>)
    returns (trace: seq<Event>, delays: seq<int>, last: Option<Point>, loads: nat, exit: Exit)
    requires b.IsValid()
    ensures Sound(trace, delays, last0, last, flag, loads)
    ensures Follows(ClickLog(trace), delays, Rep(Interval(b, button, minMs, maxMs), |delays|))
    ensures finite.Some? ==> |delays| <= finite.value
    ensures exit == Finished ==> finite.Some? && |delays| == finite.value
    ensures exit == Cancelled <==> loads > flag.stopAfter
    ensures finite == Some(0) ==> trace == [] && (exit == Finished <==> loads0 < flag.stopAfter)
    ensures loads0 < loads
    ensures finite.Some? ==> loads <= loads0 + 1 + PlanReads(Rep(Interval(b, button, minMs, maxMs), finite.value))
    ensures loads <= flag.stopAfter ==> exit == Finished && loads == loads0 + 1 + Reads(delays)
  {
    var t := Interval(b, button, minMs, maxMs);
    trace, delays, last, loads := [], [], last0, loads0;
    var remaining: Option<nat> := finite;
    SoundEmpty(last0, flag, loads0);
    while true
      invariant Clicking(flag, loads0, last0, t, trace, delays, last, loads)
      invariant finite.Some? ==> remaining.Some? && remaining.value + |delays| == finite.value
      invariant finite.None? ==> remaining.None?
      invariant finite == Some(0) ==> trace == [] && loads == loads0
      decreases flag.stopAfter - loads
    {
      if finite.Some? {
        RepReadsMono(t, |delays|, finite.value);
      }
      if !flag.Load(loads) {
        loads := loads + 1;
        exit := Cancelled;
        return;
      }
      loads := loads + 1;
      if remaining == Some(0) {
        exit := Finished;
        return;
      }
      trace, delays, last, loads := ClickRound(flag, loads0, last0, t, trace, delays, last, loads - 1);
      if remaining.Some? {
        remaining := Some(remaining.value - 1);
      }
    }
  }

  /**
   * The `for _ in 0..step.clicks` loop of one step with a valid region: clicks
   * `clicks` times at target `t`, reading the flag before each click. `done` is
   * false when a read came back false.
   */
  method RunStep(flag: Flag, loads0: nat, last0: Option<Point>, t: Target, clicks: nat)
    returns (trace: seq<Event>, delays: seq<int>, last: Option<Point>, loads: nat, done: bool)
    requires t.bounds.IsValid() && t.lo <= t.hi
    ensures Sound(trace, delays, last0, last, flag, loads)
    ensures FollowsPrefix(ClickLog(trace), delays, Rep(t, clicks))
    ensures done ==> Follows(ClickLog(trace), delays, Rep(t, clicks))
    ensures !done ==> loads > flag.stopAfter
    ensures loads0 <= loads
    ensures loads <= loads0 + PlanReads(Rep(t, clicks))
    ensures loads <= flag.stopAfter ==> loads == loads0 + Reads(delays)
  {
    trace, delays, last, loads := [], [], last0, loads0;
    SoundEmpty(last0, flag, loads0);
    var j := 0;
    while j < clicks
      invariant 0 <= j <= clicks && |delays| == j
      invariant Clicking(flag, loads0, last0, t, trace, delays, last, loads)
    {
      RepReadsSnoc(t, j);
      RepReadsMono(t, j + 1, clicks);
      if !flag.Load(loads) {
        loads := loads + 1;
        done := false;
        assert Rep(t, clicks)[..j] == Rep(t, j);
        return;
      }
      trace, delays, last, loads := ClickRound(flag, loads0, last0, t, trace, delays, last, loads);
      j := j + 1;
    }
    done := true;
    FollowsIsPrefix(ClickLog(trace), delays, Rep(t, clicks));
  }

  /** The state of the pass loop before step `i`: every step before it done, every read counted. */
  ghost predicate InPass(flag: Flag, loads0: nat, last0: Option<Point>, steps: seq<SequenceStep>, i: nat,
                         trace: seq<Event>, delays: seq<int>, last: Option<Point>, loads: nat)
  {
    i <= |steps|
    && loads0 <= loads
    && loads <= loads0 + i + PlanReads(Flatten(StepPlans(steps)[..i]))
    && (loads <= flag.stopAfter ==> loads == loads0 + i + Reads(delays))
    && Sound(trace, delays, last0, last, flag, loads)
    && Follows(ClickLog(trace), delays, Flatten(StepPlans(steps)[..i]))
  }

  /** The outcome of a pass cut short by a `false` read. */
  ghost predicate PassStopped(flag: Flag, loads0: nat, last0: Option<Point>, steps: seq<SequenceStep>,
                          trace: seq<Event>, delays: seq<int>, last: Option<Point>, loads: nat)
  {
    Sound(trace, delays, last0, last, flag, loads)
    && FollowsPrefix(ClickLog(trace), delays, PassPlan(steps))
    && flag.stopAfter < loads
    && loads0 <= loads <= loads0 + |steps| + PlanReads(PassPlan(steps))
  }

  /**
   * One iteration of the `for step in &steps` loop: the flag read, then the
   * step's clicks when its region is valid. `ok` is false when a read came
   * back false.
   */
  method PassStep(flag: Flag, loads0: nat, last0: Option<Point>, steps: seq<SequenceStep>, i: nat,
                  trace0: seq<Event>, delays0: seq<int>, last1: Option<Point>, loads1: nat)
    returns (trace: seq<Event>, delays: seq<int>, last: Option<Point>, loads: nat, ok: bool)
    requires i < |steps|
    requires InPass(flag, loads0, last0, steps, i, trace0, delays0, last1, loads1)
    ensures ok ==> InPass(flag, loads0, last0, steps, i + 1, trace, delays, last, loads)
    ensures !ok ==> PassStopped(flag, loads0, last0, steps, trace, delays, last, loads)
  {
    var parts := StepPlans(steps);
    if !flag.Load(loads1) {
      StepStopped(parts, i, ClickLog(trace0), delays0);
      return trace0, delays0, last1, loads1 + 1, false;
    }
    if !steps[i].bounds.IsValid() {
      StepSkipped(flag, loads0, parts, i, loads1, delays0);
      return trace0, delays0, last1, loads1 + 1, true;
    }
    var t := StepTarget(steps[i]);
    var tr, ds, l, r, stepOk := RunStep(flag, loads1 + 1, last1, t, steps[i].clicks);
    CountStep(flag, loads0, parts, i, loads1, r, delays0, ds);
    SoundAppend(trace0, delays0, tr, ds, last0, last1, l, flag, loads1 + 1, r);
    if !stepOk {
      CutInFlatten(ClickLog(trace0), delays0, ClickLog(tr), ds, parts, i);
      FlattenReadsPrefix(parts, i + 1);
      return trace0 + tr, delays0 + ds, l, r, false;
    }
    StepDone(parts, i, ClickLog(trace0), delays0, ClickLog(tr), ds);
    return trace0 + tr, delays0 + ds, l, r, true;
  }

  /** A false read before step `i` leaves the steps before it done: a prefix of the pass, within its allowance. */
  lemma StepStopped(parts: seq<seq<Target>>, i: nat, log: seq<ClickAt>, delays: seq<int>)
    requires i < |parts| && Follows(log, delays, Flatten(parts[..i]))
    ensures FollowsPrefix(log, delays, Flatten(parts))
    ensures PlanReads(Flatten(parts[..i])) <= PlanReads(Flatten(parts))
  {
    FollowsIsPrefix(log, delays, Flatten(parts[..i]));
    FlattenPrefix(parts, i, 0);
    assert Flatten(parts[..i]) + parts[i][..0] == Flatten(parts[..i]);
    FollowsPrefixMono(log, delays, Flatten(parts[..i]), Flatten(parts));
    FlattenReadsPrefix(parts, i);
  }

  /** A step with nothing to click adds its read and nothing else. */
  lemma StepSkipped(flag: Flag, loads0: nat, parts: seq<seq<Target>>, i: nat, loads: nat, delays: seq<int>)
    requires i < |parts| && parts[i] == []
    requires loads <= loads0 + i + PlanReads(Flatten(parts[..i]))
    requires loads < flag.stopAfter && loads == loads0 + i + Reads(delays)
    ensures Flatten(parts[..i + 1]) == Flatten(parts[..i])
    ensures loads + 1 <= loads0 + (i + 1) + PlanReads(Flatten(parts[..i + 1]))
    ensures loads + 1 <= flag.stopAfter ==> loads + 1 == loads0 + (i + 1) + Reads(delays)
  {
    FlattenSnoc(parts, i);
    assert Flatten(parts[..i]) + [] == Flatten(parts[..i]);
    CountStep(flag, loads0, parts, i, loads, loads + 1, delays, []);
    assert delays + [] == delays;
  }

  /** A step carried out in full extends the steps before it by its plan. */
  lemma StepDone(parts: seq<seq<Target>>, i: nat, log: seq<ClickAt>, delays: seq<int>, log2: seq<ClickAt>, ds: seq<int>)
    requires i < |parts|
    requires Follows(log, delays, Flatten(parts[..i])) && Follows(log2, ds, parts[i])
    ensures Follows(log + log2, delays + ds, Flatten(parts[..i + 1]))
  {
    FlattenSnoc(parts, i);
    FollowsAppend(log, delays, Flatten(parts[..i]), log2, ds, parts[i]);
  }

  /**
   * The `for step in &steps` loop: one pass over the steps in list order, skipping
   * steps whose region is invalid. `done` is false when a flag read came back false.
   */
  method RunPass(flag: Flag, loads0: nat, last0: Option<Point>, steps: seq<SequenceStep>)
    returns (trace: seq<Event>, delays: seq<int>, last: Option<Point>, loads: nat, done: bool)
    ensures Sound(trace, delays, last0, last, flag, loads)
    ensures FollowsPrefix(ClickLog(trace), delays, PassPlan(steps))
    ensures done ==> Follows(ClickLog(trace), delays, PassPlan(steps))
    ensures !done ==> loads > flag.stopAfter
    ensures loads0 <= loads
    ensures loads <= loads0 + |steps| + PlanReads(PassPlan(steps))
    ensures loads <= flag.stopAfter ==> loads == loads0 + |steps| + Reads(delays)
  {
    trace, delays, last, loads := [], [], last0, loads0;
    SoundEmpty(last0, flag, loads0);
    var i := 0;
    assert StepPlans(steps)[..0] == [];
    while i < |steps|
      invariant i <= |steps|
      invariant InPass(flag, loads0, last0, steps, i, trace, delays, last, loads)
    {
      var ok;
      trace, delays, last, loads, ok := PassStep(flag, loads0, last0, steps, i, trace, delays, last, loads);
      if !ok {
        done := false;
        return;
      }
      i := i + 1;
    }
    done := true;
    assert StepPlans(steps)[..|steps|] == StepPlans(steps);
    FollowsIsPrefix(ClickLog(trace), delays, PassPlan(steps));
  }

  /** A completed pass extends a run of `k` passes to `k + 1`, which is a prefix of `k + 2`. */
  lemma PassDone(log: seq<ClickAt>, delays: seq<int>, p: seq<Target>, k: nat, log2: seq<ClickAt>, d2: seq<int>)
    requires Follows(log, delays, Repeat(p, k)) && Follows(log2, d2, p)
    ensures Follows(log + log2, delays + d2, Repeat(p, k + 1))
    ensures FollowsPrefix(log + log2, delays + d2, Repeat(p, k + 2))
  {
    FollowsAppend(log, delays, Repeat(p, k), log2, d2, p);
    FollowsIsPrefix(log + log2, delays + d2, Repeat(p, k + 1));
    RepeatPrefix(p, k + 1, k + 2);
    FollowsPrefixMono(log + log2, delays + d2, Repeat(p, k + 1), Repeat(p, k + 2));
  }

  /** A pass cut short after `k` full passes follows a prefix of `k + 1` passes. */
  lemma PassCut(log: seq<ClickAt>, delays: seq<int>, p: seq<Target>, k: nat, log2: seq<ClickAt>, d2: seq<int>)
    requires Follows(log, delays, Repeat(p, k)) && FollowsPrefix(log2, d2, p)
    ensures FollowsPrefix(log + log2, delays + d2, Repeat(p, k + 1))
  {
    FollowsPrefixAppend(log, delays, Repeat(p, k), log2, d2, p);
  }

  /**
   * The sequence-mode arm for a non-empty step list: pass after pass over the
   * steps until a flag read comes back false or `cycles` passes are done.
   * `passes` counts the passes that were completed. The cycle counter is tested
   * right after a pass, before the flag is read again, so a run stopped during
   * the last delay of its last pass still ends as `Finished`.
   */
  method RunSequence(flag: Flag, loads0: nat, last0: Option<Point>, steps: seq<SequenceStep>, cycles: Option<nat>)
    returns (trace: seq<Event>, delays: seq<int>, last: Option<Point>, loads: nat, exit: Exit, passes: nat)
    ensures Sound(trace, delays, last0, last, flag, loads)
    ensures FollowsPrefix(ClickLog(trace), delays, Repeat(PassPlan(steps), passes + 1))
    ensures exit == Finished ==> Follows(ClickLog(trace), delays, Repeat(PassPlan(steps), passes))
    ensures exit == Finished ==> cycles.Some? && passes == Passes(cycles.value)
    ensures cycles.Some? ==> passes <= Passes(cycles.value)
    ensures exit == Cancelled ==> loads > flag.stopAfter && (cycles.Some? ==> passes < Passes(cycles.value))
    ensures loads0 < loads
    ensures cycles.Some? ==> loads <= loads0 + SequenceDemand(steps, Passes(cycles.value))
    ensures loads <= flag.stopAfter ==> exit == Finished && loads == loads0 + PassChecks(steps, passes) + Reads(delays)
    ensures cycles.Some? && loads0 + SequenceDemand(steps, Passes(cycles.value)) <= flag.stopAfter ==> exit == Finished
  {
    var p := PassPlan(steps);
    trace, delays, last, loads := [], [], last0, loads0;
    SoundEmpty(last0, flag, loads0);
    passes := 0;
    var c := cycles;
    exit := Cancelled;
    while true
      invariant Progress(flag, last0, steps, trace, delays, last, loads, passes)
      invariant Counting(cycles, c, passes)
      invariant Counted(flag, loads0, steps, delays, loads, passes)
      invariant loads0 <= loads
      decreases flag.stopAfter - loads
    {
      var ended;
      trace, delays, last, loads, passes, c, ended := Turn(flag, loads0, last0, steps, cycles, trace, delays, last, loads, passes, c);
      if ended.Some? {
        exit := ended.value;
        SequenceEnd(flag, loads0, steps, cycles, delays, loads, passes, exit);
        return;
      }
    }
  }

  /** How the reads of a sequence run stand when it ends, from how its last turn ended. */
  lemma SequenceEnd(flag: Flag, base: nat, steps: seq<SequenceStep>, cycles: Option<nat>,
                    delays: seq<int>, loads: nat, passes: nat, exit: Exit)
    requires exit == Finished ==> Counted(flag, base, steps, delays, loads, passes) && cycles.Some? && passes == Passes(cycles.value)
    requires exit == Cancelled ==> flag.stopAfter < loads <= base + SequenceDemand(steps, passes + 1)
    requires exit == Cancelled && cycles.Some? ==> passes < Passes(cycles.value)
    ensures cycles.Some? ==> loads <= base + SequenceDemand(steps, Passes(cycles.value))
    ensures loads <= flag.stopAfter ==> exit == Finished && loads == base + PassChecks(steps, passes) + Reads(delays)
    ensures cycles.Some? && base + SequenceDemand(steps, Passes(cycles.value)) <= flag.stopAfter ==> exit == Finished
  {
    if exit == Cancelled && cycles.Some? {
      SequenceDemandMono(steps, passes + 1, Passes(cycles.value));
    }
  }

  /** A sound run of `passes` whole passes. */
  predicate Progress(flag: Flag, last0: Option<Point>, steps: seq<SequenceStep>,
                     trace: seq<Event>, delays: seq<int>, last: Option<Point>, loads: nat, passes: nat) {
    Sound(trace, delays, last0, last, flag, loads) && Follows(ClickLog(trace), delays, Repeat(PassPlan(steps), passes))
  }

  /** The cycle counter `c` after `passes` completed passes of a run limited to `cycles`. */
  predicate Counting(cycles: Option<nat>, c: Option<nat>, passes: nat) {
    (c.Some? <==> cycles.Some?) &&
    (cycles.Some? ==> passes < Passes(cycles.value) && c.value + passes == cycles.value)
  }

  /**
   * One turn of the `'cycles` loop: a flag read and a pass (`NextPass`), then
   * the cycle counter (`CountDown`). `ended` is the way the loop ends, if it does.
   */
  method Turn(flag: Flag, base: nat, last0: Option<Point>, steps: seq<SequenceStep>, cycles: Option<nat>,
              trace0: seq<Event>, delays0: seq<int>, last1: Option<Point>, loads0: nat, passes0: nat, c0: Option<nat>)
    returns (trace: seq<Event>, delays: seq<int>, last: Option<Point>, loads: nat, passes: nat, c: Option<nat>, ended: Option<Exit>)
    requires Progress(flag, last0, steps, trace0, delays0, last1, loads0, passes0)
    requires Counting(cycles, c0, passes0)
    requires Counted(flag, base, steps, delays0, loads0, passes0)
    ensures ended != Some(Cancelled) ==> Counted(flag, base, steps, delays, loads, passes)
    ensures ended == Some(Cancelled) ==> loads <= base + SequenceDemand(steps, passes + 1)
    ensures Sound(trace, delays, last0, last, flag, loads)
    ensures FollowsPrefix(ClickLog(trace), delays, Repeat(PassPlan(steps), passes + 1))
    ensures ended != Some(Cancelled) ==> Follows(ClickLog(trace), delays, Repeat(PassPlan(steps), passes))
    ensures ended.None? ==> Counting(cycles, c, passes) && loads0 < flag.stopAfter
    ensures ended == Some(Finished) ==> cycles.Some? && passes == Passes(cycles.value)
    ensures ended == Some(Cancelled) ==> loads > flag.stopAfter && passes == passes0 && (cycles.Some? ==> passes < Passes(cycles.value))
    ensures loads0 < loads
  {
    var ok;
    trace, delays, last, loads, ok := NextPass(flag, last0, steps, trace0, delays0, last1, loads0, passes0);
    CountPass(flag, base, steps, passes0, loads0, loads, delays0, delays);
    passes, c := passes0, c0;
    if !ok {
      return trace, delays, last, loads, passes, c, Some(Cancelled);
    }
    passes := passes + 1;
    var stop;
    c, stop := CountDown(c);
    NoPass(ClickLog(trace), delays, PassPlan(steps), passes);
    ended := if stop then Some(Finished) else None;
  }

  /**
   * The cycle counter after a pass: `Some(0)` and `Some(1)` end the run (the
   * zero test, the saturating decrement and the second zero test), a larger
   * count goes down by one, and `None` never ends it.
   */
  method CountDown(c: Option<nat>) returns (c': Option<nat>, ended: bool)
    ensures ended <==> c.Some? && c.value <= 1
    ensures !ended ==> c' == (if c.Some? then Some(c.value - 1) else None)
  {
    c', ended := c, false;
    if c.Some? {
      if c.value == 0 {
        return c', true;
      }
      c' := Some(c.value - 1);
      if c'.value == 0 {
        return c', true;
      }
    }
  }

  /**
   * One turn of the sequence loop: read the flag and, when it is still set, run
   * a pass, appending its events to the run so far.
   */
  method NextPass(flag: Flag, last0: Option<Point>, steps: seq<SequenceStep>,
                  trace0: seq<Event>, delays0: seq<int>, last1: Option<Point>, loads0: nat, passes: nat)
    returns (trace: seq<Event>, delays: seq<int>, last: Option<Point>, loads: nat, done: bool)
    requires Sound(trace0, delays0, last0, last1, flag, loads0)
    requires Follows(ClickLog(trace0), delays0, Repeat(PassPlan(steps), passes))
    ensures Sound(trace, delays, last0, last, flag, loads)
    ensures FollowsPrefix(ClickLog(trace), delays, Repeat(PassPlan(steps), passes + 1))
    ensures done ==> Follows(ClickLog(trace), delays, Repeat(PassPlan(steps), passes + 1))
    ensures done ==> loads0 < flag.stopAfter
    ensures !done ==> loads > flag.stopAfter
    ensures loads0 < loads <= loads0 + 1 + |steps| + PlanReads(PassPlan(steps))
    ensures loads <= flag.stopAfter ==> done && loads + Reads(delays0) == loads0 + 1 + |steps| + Reads(delays)
  {
    if !flag.Load(loads0) {
      trace, delays, last, loads, done := trace0, delays0, last1, loads0 + 1, false;
      NoPass(ClickLog(trace), delays, PassPlan(steps), passes);
      return;
    }
    var tr, ds, l, r, ok := RunPass(flag, loads0 + 1, last1, steps);
    SoundAppend(trace0, delays0, tr, ds, last0, last1, l, flag, loads0, r);
    AnotherPass(ClickLog(trace0), delays0, PassPlan(steps), passes, ClickLog(tr), ds, ok);
    ReadsAppend(delays0, ds);
    trace, delays, last, loads, done := trace0 + tr, delays0 + ds, l, r, ok;
  }

  /** A run of `k` whole passes follows a prefix of `k + 1` passes. */
  lemma NoPass(log: seq<ClickAt>, delays: seq<int>, p: seq<Target>, k: nat)
    requires Follows(log, delays, Repeat(p, k))
    ensures FollowsPrefix(log, delays, Repeat(p, k + 1))
  {
    assert p[..0] == [] && Repeat(p, k) + [] == Repeat(p, k);
    FollowsPrefixOfRepeat(log, delays, p, k, []);
  }

  /** `k` whole passes and then a pass that may have been cut short. */
  lemma AnotherPass(log: seq<ClickAt>, delays: seq<int>, p: seq<Target>, k: nat, log2: seq<ClickAt>, d2: seq<int>, whole: bool)
    requires Follows(log, delays, Repeat(p, k)) && FollowsPrefix(log2, d2, p)
    requires whole ==> Follows(log2, d2, p)
    ensures FollowsPrefix(log + log2, delays + d2, Repeat(p, k + 1))
    ensures whole ==> Follows(log + log2, delays + d2, Repeat(p, k + 1))
  {
    if whole {
      PassDone(log, delays, p, k, log2, d2);
    } else {
      PassCut(log, delays, p, k, log2, d2);
    }
  }

  /* ------------------------- The outer loop ------------------------- */

  /**
   * The configuration read by the `k`-th iteration of the outer loop: the UI may
   * change it between idles, and the last snapshot stays in force.
   */
  function Snapshot(cfgs: seq<JobMode>, k: nat): JobMode
    requires |cfgs| > 0
  {
    cfgs[Min(k, |cfgs| - 1)]
  }

  /** A single-mode run that followed `|delays|` rounds of its target follows a prefix of its full plan. */
  lemma SinglePrefix(log: seq<ClickAt>, delays: seq<int>, m: JobMode)
    requires m.Single? && m.bounds.Some?
    requires Follows(log, delays, Rep(Interval(m.bounds.value, m.button, m.minMs, m.maxMs), |delays|))
    requires m.finiteClicks.Some? ==> |delays| <= m.finiteClicks.value
    ensures FollowsPrefix(log, delays, FullPlan(m, |delays|))
  {
    var t := Interval(m.bounds.value, m.button, m.minMs, m.maxMs);
    var n := m.finiteClicks.GetOr(|delays|);
    assert FullPlan(m, |delays|) == Rep(t, n);
    assert Rep(t, n)[..|delays|] == Rep(t, |delays|);
  }

  /** A sequence-mode run that completed `passes` passes follows a prefix of its full plan. */
  lemma SequencePrefix(log: seq<ClickAt>, delays: seq<int>, m: JobMode, passes: nat, finished: bool)
    requires m.Sequence?
    requires FollowsPrefix(log, delays, Repeat(PassPlan(m.steps), passes + 1))
    requires finished ==> Follows(log, delays, Repeat(PassPlan(m.steps), passes)) && m.cycles.Some? && passes == Passes(m.cycles.value)
    requires !finished && m.cycles.Some? ==> passes < Passes(m.cycles.value)
    ensures FollowsPrefix(log, delays, FullPlan(m, passes + 1))
    ensures finished ==> Follows(log, delays, FullPlan(m, 0))
  {
    var p := PassPlan(m.steps);
    if finished {
      FollowsIsPrefix(log, delays, Repeat(p, passes));
    } else if m.cycles.Some? {
      RepeatPrefix(p, passes + 1, Passes(m.cycles.value));
      FollowsPrefixMono(log, delays, Repeat(p, passes + 1), Repeat(p, Passes(m.cycles.value)));
    }
  }

  /**
   * The flag reads of a run on `m` outside its click rounds, when none comes
   * back `false`: the read before the budget test in single mode, the reads
   * before each pass and each step in sequence mode.
   */
  function Overhead(m: JobMode): nat {
    match m
    case Single(_, _, _, _, _) => 1
    case Sequence(steps, cycles) => if cycles.Some? then PassChecks(steps, Passes(cycles.value)) else 0
  }

  /** The most flag reads a limited run on `m` can take before it finishes on its own. */
  function Demand(m: JobMode): nat {
    Overhead(m) + PlanReads(FullPlan(m, 0))
  }

  /** A run that carried out the whole plan of `m` took no more reads than `m` demands. */
  lemma DemandCovers(log: seq<ClickAt>, delays: seq<int>, m: JobMode)
    requires Follows(log, delays, FullPlan(m, 0))
    ensures Overhead(m) + Reads(delays) <= Demand(m)
  {
    FollowsReads(log, delays, FullPlan(m, 0));
  }

  /**
   * The `match cfg.mode` of the outer loop for a usable configuration: run its arm
   * until the flag reads false or the configured limit is reached.
   */
  method Work(flag: Flag, loads0: nat, m: JobMode) returns (work: seq<Event>, delays: seq<int>, exit: Exit, loads: nat)
    requires Usable(m)
    ensures Chained(work, None)
    ensures exists k: nat :: FollowsPrefix(ClickLog(work), delays, FullPlan(m, k))
    ensures exit == Finished ==> Limited(m) && Follows(ClickLog(work), delays, FullPlan(m, 0))
    ensures exit == Cancelled ==> loads > flag.stopAfter
    ensures SleepTotal(work) <= Sum(Waits(delays))
    ensures loads <= flag.stopAfter ==> SleepTotal(work) == Sum(Waits(delays))
    ensures loads0 < loads
    ensures Limited(m) ==> loads <= loads0 + Demand(m)
    ensures Limited(m) && loads0 + Demand(m) <= flag.stopAfter ==> exit == Finished
    ensures loads <= flag.stopAfter ==> exit == Finished && loads == loads0 + Overhead(m) + Reads(delays)
  {
    var last: Option<Point>;
    if m.Single? {
      work, delays, last, loads, exit := RunSingle(flag, loads0, None, m.bounds.value, m.button, m.minMs, m.maxMs, m.finiteClicks);
      SinglePrefix(ClickLog(work), delays, m);
    } else {
      var passes;
      work, delays, last, loads, exit, passes := RunSequence(flag, loads0, None, m.steps, m.cycles);
      SequencePrefix(ClickLog(work), delays, m, passes, exit == Finished);
    }
  }

  /** The idle iterations before the work add sleeps and no clicks, and do not move the pointer. */
  lemma IdleThenWork(idles: nat, work: seq<Event>)
    requires Chained(work, None)
    ensures Chained(Idle(idles) + work, None)
    ensures ClickLog(Idle(idles) + work) == ClickLog(work)
    ensures SleepTotal(Idle(idles) + work) == IdleMs * idles + SleepTotal(work)
    ensures (Idle(idles) + work)[..idles] == Idle(idles)
  {
    IdleFacts(idles);
    ChainedAppend(Idle(idles), work, None);
    ClickLogAppend(Idle(idles), work);
    SleepTotalAppend(Idle(idles), work);
    assert (Idle(idles) + work)[..idles] == Idle(idles);
  }

  /** `u` is the first idle iteration whose snapshot is usable. */
  ghost predicate FirstUsable(cfgs: seq<JobMode>, u: nat)
    requires |cfgs| > 0
  {
    Usable(Snapshot(cfgs, u)) && forall k :: 0 <= k < u ==> !Usable(Snapshot(cfgs, k))
  }

  /**
   * The worker stops idling at the first usable snapshot unless the flag is
   * cleared first; when enough reads come back `true` for that snapshot's
   * whole plan, the run finishes there.
   */
  lemma SpawnLive(cfgs: seq<JobMode>, flag: Flag, idles: nat, exit: Exit)
    requires |cfgs| > 0
    requires forall k :: 0 <= k < idles ==> !Usable(Snapshot(cfgs, k))
    requires !Usable(Snapshot(cfgs, idles)) ==> idles == flag.stopAfter
    requires (Usable(Snapshot(cfgs, idles)) && Limited(Snapshot(cfgs, idles)) &&
              idles + 1 + Demand(Snapshot(cfgs, idles)) <= flag.stopAfter) ==> exit == Finished
    ensures forall u: nat :: FirstUsable(cfgs, u) && Limited(Snapshot(cfgs, u)) && u + 1 + Demand(Snapshot(cfgs, u)) <= flag.stopAfter
                             ==> idles == u && exit == Finished
  {
    forall u: nat | FirstUsable(cfgs, u) && Limited(Snapshot(cfgs, u)) && u + 1 + Demand(Snapshot(cfgs, u)) <= flag.stopAfter
      ensures idles == u && exit == Finished
    {
      var mi, mu := Snapshot(cfgs, idles), Snapshot(cfgs, u);
      assert idles < u ==> !Usable(mi);
      assert u < idles ==> !Usable(mu);
    }
  }

  /**
   * The worker thread: idle 150 ms per unusable snapshot, then run the arm of the
   * first usable one. `idles` counts the idle iterations and `loads` the flag
   * reads of the whole run.
   */
  method Spawn(cfgs: seq<JobMode>, flag: Flag) returns (trace: seq<Event>, delays: seq<int>, exit: Exit, idles: nat, loads: nat)
    requires |cfgs| > 0
    ensures idles <= |trace| && trace[..idles] == Idle(idles)
    ensures forall k :: 0 <= k < idles ==> !Usable(Snapshot(cfgs, k))
    ensures |delays| > 0 ==> Usable(Snapshot(cfgs, idles))
    ensures Chained(trace, None)
    ensures exists k: nat :: FollowsPrefix(ClickLog(trace), delays, FullPlan(Snapshot(cfgs, idles), k))
    ensures exit == Finished ==> Usable(Snapshot(cfgs, idles)) && Limited(Snapshot(cfgs, idles)) &&
                                 Follows(ClickLog(trace), delays, FullPlan(Snapshot(cfgs, idles), 0))
    ensures exit == Cancelled ==> loads > flag.stopAfter
    ensures SleepTotal(trace) <= IdleMs * idles + Sum(Waits(delays))
    ensures loads <= flag.stopAfter ==> SleepTotal(trace) == IdleMs * idles + Sum(Waits(delays))
    ensures !Usable(Snapshot(cfgs, idles)) ==> exit == Cancelled && idles == flag.stopAfter && loads == idles + 1
    ensures (Usable(Snapshot(cfgs, idles)) && Limited(Snapshot(cfgs, idles)) &&
             idles + 1 + Demand(Snapshot(cfgs, idles)) <= flag.stopAfter) ==> exit == Finished
    ensures loads <= flag.stopAfter ==> exit == Finished && loads == idles + 1 + Overhead(Snapshot(cfgs, idles)) + Reads(delays)
    ensures forall u: nat :: FirstUsable(cfgs, u) && Limited(Snapshot(cfgs, u)) && u + 1 + Demand(Snapshot(cfgs, u)) <= flag.stopAfter
                             ==> idles == u && exit == Finished
  {
    trace, delays, idles, loads := [], [], 0, 0;
    while true
      invariant trace == Idle(idles) && loads == idles && idles <= flag.stopAfter
      invariant forall k :: 0 <= k < idles ==> !Usable(Snapshot(cfgs, k))
      decreases flag.stopAfter - loads
    {
      if !flag.Load(loads) {
        loads := loads + 1;
        exit := Cancelled;
        IdleFacts(idles);
        assert Waits([]) == [];
        assert FollowsPrefix([], [], FullPlan(Snapshot(cfgs, idles), 0));
        SpawnLive(cfgs, flag, idles, exit);
        return;
      }
      loads := loads + 1;
      var m := Snapshot(cfgs, idles);
      if !Usable(m) {
        assert Idle(idles + 1) == Idle(idles) + [Sleep(IdleMs)];
        trace := trace + [Sleep(IdleMs)];
        idles := idles + 1;
        continue;
      }
      var work;
      work, delays, exit, loads := Work(flag, loads, m);
      IdleThenWork(idles, work);
      trace := trace + work;
      SpawnLive(cfgs, flag, idles, exit);
      return;
    }
  }
}
