# AreaPicker click jobs, modelled in Dafny

AreaPicker is a desktop auto-clicker. The user picks a rectangular screen
region, or a list of regions called "steps". A worker thread then moves the
pointer to random points inside the region(s) and clicks. Between clicks it
sleeps for a random delay taken from a configured interval. The user stops the
worker with Stop or Pause. Several variants of the application live side by
side in the repository, and this project models the core of each:

- `src/main.rs`: the current application. It has single-area and sequence
  modes, a step editor, monitor handling and a drag picker. Its worker
  (`ClickJob::spawn`) moves to each click point with a human-like move, and
  sleeps in 50 ms chunks so it can see a cancellation quickly.
- `src/temp_main2.rs`: an earlier variant. Its worker holds the configuration
  lock for a whole pass, and its editor works on a `current_sequence_index`.
- `src/temp_main3.rs`: a variant whose worker runs over a copy of the steps,
  with an `editing_step_idx` editor.
- `spawn_temp.rs`: a cursor-based worker. It keeps its place in the sequence
  (`current_action`), counts the clicks of the current action and the cycles
  completed, and reaches each point with a jump or a human-like move from the
  previous click.
- `src/human_mouse.rs`: the Bezier-curve pointer move used by the
  `temp_main*` workers and `spawn_temp.rs`.

How the model is built:

- **Effects become a trace.** The outside world (pointer moves, clicks, sleeps)
  is recorded as a trace of `Events.Event` values.
- **Clicks are checked against a plan.** A run's clicks are compared with a
  plan of `Events.Target`s. A run *follows* a plan when the i-th click lands in
  the i-th target's region, with its button, and the delay sampled after it
  lies in that target's interval.
- **The run flag is a count.** `running` is only ever cleared once set, so the
  values a worker reads are "true" a number of times and then "false" for
  ever. `Events.Flag(stopAfter)` stands for that sequence of reads. This makes
  every worker loop terminate, and it lets the contracts say exactly when a
  run is cancelled.
- **Random choices are nondeterministic.** Each sample is picked with `:|`
  inside the range the code samples from.
- **Mutable state is a class.** The application states (`AppState`) are
  classes whose methods update fields. The worker loops are methods with loop
  invariants, proved against the plan functions.

## Model

| member | source | states |
|---|---|---|
| Geometry.IsValidMeaning | src/temp_main2.rs:32-34 | `is_valid` holds exactly when both axes strictly increase; a valid region can be sampled and contains its two corners |
| Geometry.BoundsExamples | src/tests.rs:8-26 | [100,200]x[100,200] is valid with width and height 100; the inverted region is not valid |
| Geometry.DragBoundsSpec | src/main.rs:466-477 | the drag region is the smallest region holding both shifted corners; it does not depend on the drag direction; it is valid exactly when the drag moved on both axes |
| Geometry.DragExamples | src/tests.rs:67-84 | dragging either way between (100,100) and (200,200) gives [100, 200, 100, 200] |
| StepList.Swap | src/main.rs:551 | `Vec::swap`: the two entries trade places and every other entry is unchanged |
| StepList.SwapPermutes | src/main.rs:549-567 | a swap keeps the same multiset of steps, and swapping twice restores the list |
| StepList.SwapKeepsSelection | src/main.rs:552-555 | after a move up or down, the selection index still denotes the step it denoted before |
| StepList.RemoveAt | src/main.rs:751 | `Vec::remove`: one entry fewer; entries before `i` stay, later ones move down by one |
| StepList.RemovePermutes | src/main.rs:751 | removal takes out exactly the removed step |
| StepList.RemoveKeepsSelection | src/main.rs:752-755 | after a removal the selection is cleared exactly when its step was removed; otherwise it denotes the same step |
| StepList.DigitChar | src/main.rs:532 | a digit below 10 maps to the character with that digit value |
| StepList.NatToString | src/main.rs:532 | `format!("{}", n)` is a non-empty string of decimal digits |
| StepList.NatToStringValue | src/main.rs:532 | the decimal text of `n` reads back as `n` |
| StepList.StepName | src/main.rs:531-532 | the proposed name is "Step " followed by digits that read back as the number |
| StepList.StepNameExamples | src/temp_main3.rs:459 | the names proposed for the first and the twelfth step are "Step 1" and "Step 12" |
| HumanMouse.TruncDiv | src/human_mouse.rs:10-13 | Rust's integer `/` rounds toward zero: the remainder has the dividend's sign and is smaller than the divisor |
| HumanMouse.TruncReal | src/human_mouse.rs:34 | `f64 as i32` truncates toward zero: the result is within 1 of the real, on the zero side |
| HumanMouse.ControlBaseSpec | src/human_mouse.rs:10-13 | the un-jittered control coordinate lies on the segment, within one pixel of the exact 1/3 or 2/3 point |
| HumanMouse.StepCount | src/human_mouse.rs:16-17 | `max(10).min(50)` gives 10 to 50 steps and keeps an estimate already in range |
| HumanMouse.BezierEnds | src/human_mouse.rs:22-31 | the curve is at the start point for t = 0 and at the end point for t = 1 |
| HumanMouse.BernsteinWeights | src/human_mouse.rs:22-31 | the four cubic weights are non-negative and sum to one on [0, 1] |
| HumanMouse.BezierHull | src/human_mouse.rs:22-31 | on [0, 1] the curve stays between the smallest and the largest control value |
| HumanMouse.PathPointSpec | src/human_mouse.rs:19-34 | step 0 moves to the start, the last step to the end, and every step lands inside the control-point hull |
| HumanMouse.PathPointsSpec | src/human_mouse.rs:19-34 | the same three facts for every step of the path at once |
| HumanMouse.Path | src/human_mouse.rs:19-34 | the path has `steps + 1` points, from the start to the end, all inside the control-point hull |
| HumanMouse.MovesSoFarSnoc | src/human_mouse.rs:33-37 | one more move-and-pause round extends the path trace, clicks nothing and adds exactly its pause |
| HumanMouse.MovesSoFarTargets | src/human_mouse.rs:34 | every pointer move of the loop goes to a point of the path |
| HumanMouse.MoveMouseHuman | src/human_mouse.rs:6-39 | the control points are the 1/3 and 2/3 points jittered by at most 20 px; 10 to 50 steps; move i goes to curve point i, from the start to the end, inside the hull; each move is followed by a 5-15 ms pause; no click |
| MainApp.UnionRect | src/main.rs:270-282 | no monitors gives (0,0,0,0); otherwise the result is the smallest rectangle containing every monitor, and each edge is some monitor's edge |
| MainApp.ClickJob.Spawn | src/main.rs:87-88 | a new job's flag is set |
| MainApp.ClickJob.Stop | src/main.rs:220-222 | `stop` clears the job's flag |
| MainApp.AppState.EditorStep | src/main.rs:489-522 | the step the editor describes: at least one click; bounds from the inputs, or kept from the selected step; the editor's name, interval and button |
| MainApp.AppState.Default | src/main.rs:323-369 | the default state: no job, no drag, inputs [100,400,100,400], left button, interval 2000-4500 ms, unlimited clicks with 100 in the input, an empty step list, one cycle, the name "Step 1", editor defaults of 5 clicks, 500-1500 ms, left button and bounds from the inputs, and a single-mode configuration over the default region |
| MainApp.AppState.StartSingle | src/main.rs:373-390 | no-op while a job exists; otherwise the configuration becomes single mode over the input region and a fresh running job is started |
| MainApp.AppState.StartSequence | src/main.rs:392-401 | no-op while a job exists or the list is empty; otherwise the configuration becomes sequence mode over the steps and a fresh running job is started |
| MainApp.AppState.Stop | src/main.rs:403-406 | the job's flag is cleared and the job dropped; nothing else changes |
| MainApp.AppState.Pause | src/main.rs:408-411 | same as Stop in this variant |
| MainApp.AppState.RefreshMonitors | src/main.rs:414-421 | the monitor list is replaced; a display choice past its end falls back to All, so the choice always names a monitor |
| MainApp.AppState.SetBoundsFromDrag | src/main.rs:466-485 | with both drag corners known, the inputs become the drag region and a single-mode configuration takes it too; otherwise nothing changes |
| MainApp.AppState.PushOrUpdateStepFromEditor | src/main.rs:488-535 | with a selection, the selected step is replaced by the editor's step; without one, the step is appended and the next name proposed; the selection is cleared |
| MainApp.AppState.SelectStepForEdit | src/main.rs:537-547 | an existing index is selected and its step loaded, its click count copied exactly, so that saving at once stores the same step; an index past the end changes nothing |
| MainApp.AppState.MoveStepUp | src/main.rs:549-557 | swaps step `idx` with its predecessor when both exist, with the selection following its step; the list is a reordering that keeps the selected step |
| MainApp.AppState.MoveStepDown | src/main.rs:559-567 | swaps step `idx` with its successor when both exist, with the selection following its step; the list is a reordering that keeps the selected step |
| MainApp.AppState.RemoveStep | src/main.rs:750-756 | the step is removed; the selection is cleared if it was that step, moved down if it was after it, and still denotes the same step |
| MainApp.SwapSteps | src/main.rs:550-556 | swaps the steps and moves the selection when both indices exist, and leaves them alone otherwise; always a reordering |
| MainApp.SwapStepsFacts | src/main.rs:551-555 | a swap keeps the multiset of steps, their click counts and the selected step |
| MainApp.Unmoved | src/main.rs:549-567 | leaving the list alone is a trivial reordering |
| MainApp.RemoveStepFacts | src/main.rs:750-756 | a removal keeps the other steps and the rule that every step clicks at least once; the selection is cleared exactly when it named the removed step |
| MainApp.KeepsClicks | src/main.rs:518 | steps drawn from a list whose steps click at least once also click at least once |
| MainJob.EntryPoint | src/main.rs:120 | the first move starts 40 px above and to the left of the region, outside it |
| MainJob.Interval | src/main.rs:171 | the delay interval is ordered, whichever way round the bounds were given |
| MainJob.StepPlans | src/main.rs:187-201 | one plan per step, in list order |
| MainJob.Passes | src/main.rs:203-206 | `Some(0)` and `Some(1)` both mean one pass; a larger count means that many passes |
| MainJob.PassPlanLength | src/main.rs:187-201 | a pass makes `clicks` clicks for each step with a valid region and none for the others |
| MainJob.RepeatLength | src/main.rs:184-211 | `k` passes make `k` times as many clicks as one |
| MainJob.RepeatPrefix | src/main.rs:184-211 | fewer passes are a prefix of more passes |
| MainJob.TwelveClicks | src/main.rs:184-211 | two valid steps of three clicks each, with two cycles, make twelve clicks |
| MainJob.ZeroCyclesIsOnePass | src/main.rs:203-206 | `Some(0)` runs the list once, the same as `Some(1)` |
| MainJob.LastPosAppend | src/main.rs:130 | `last_pos` after two stretches of a run is `last_pos` after the second, started from where the first left it |
| MainJob.ChainedAppend | src/main.rs:120-130 | two chained stretches make a chained run: every move starts from the previous click |
| MainJob.QuietFacts | src/main.rs:133-143 | sleeps click nothing and leave `last_pos` alone |
| MainJob.Idle | src/main.rs:150-158 | `n` idle iterations are `n` sleeps of 150 ms |
| MainJob.IdleFacts | src/main.rs:150-158 | idling clicks nothing, sleeps 150 ms per iteration and does not move the pointer |
| MainJob.Waits | src/main.rs:134 | each delay is waited for at least 10 ms |
| MainJob.WaitsAppend | src/main.rs:134 | the wait of two runs is the sum of their waits |
| MainJob.WaitsSnoc | src/main.rs:134 | one more delay adds `max(d, 10)` ms of waiting |
| MainJob.SplitSpec | src/main.rs:136-142 | the chunks of a wait sum to the wait and are each 1 to 50 ms |
| MainJob.SplitStep | src/main.rs:139-141 | the first chunk is 50 ms, or the whole wait when that is shorter |
| MainJob.SplitLength | src/main.rs:136-142 | a wait is slept in `ms / 50` chunks, rounded up |
| MainJob.ChunksMono | src/main.rs:133-143 | a longer delay is slept in at least as many chunks, so it takes at least as many flag reads |
| MainJob.FollowsReads | src/main.rs:165-173 | the rounds of a run that follows a plan take no more reads than the plan allows with every delay at the top of its interval |
| MainJob.CountRound | src/main.rs:161-173 | a click round adds one read and then one per chunk of its delay: within its target's allowance and, while every read is true, exactly |
| MainJob.SleptChunks | src/main.rs:137-142 | the chunks slept before a false read are a prefix of the split, and with no false read they are all of it; one read per chunk, so the reads are exactly the chunks unless a read came back false |
| MainJob.SleepOutcome | src/main.rs:133-143 | `sleep_between` sleeps at most the wait, exactly the wait while the flag stays set, and clicks nothing |
| MainJob.SleepBetween | src/main.rs:133-143 | waits `max(ms, 10)` in 50 ms chunks and reads the flag before each chunk; stops at the first false read; the total slept is at most the wait, and exactly the wait if no read came back false; it takes at most one read per chunk, exactly that many when none came back false |
| MainJob.DoClick | src/main.rs:109-131 | one human-like move-and-click from the last click (or the entry point) to a point inside the region; `last_pos` becomes that point |
| MainJob.Round | src/main.rs:165-173 | one click inside the region, a delay from the interval, then `sleep_between` on it |
| MainJob.RoundEvents | src/main.rs:165-173 | a round's events are one click at the sampled point, chained from `last_pos`, and sleeps |
| MainJob.RoundSnoc | src/main.rs:195-200 | a round extends a sound run that follows a plan by one click of the planned target |
| MainJob.SoundEmpty | src/main.rs:145 | the empty run is sound |
| MainJob.SoundAppend | src/main.rs:184-211 | two sound runs, the second starting where the first left off, make a sound run |
| MainJob.RunSingle | src/main.rs:160-175 | clicks until stopped or until the click budget is spent; the clicks follow the target and never exceed the budget; the reads are within one plus the budget's allowance, and a run whose reads all came back true finished after exactly one read plus those of its rounds, so enough true reads guarantee it finishes |
| MainJob.RunStep | src/main.rs:195-200 | `clicks` clicks of a step's target, or a prefix of them when a flag read came back false; the reads stay within the clicks' allowance and are exact while every read is true |
| MainJob.CountStep | src/main.rs:187-201 | a step adds its own read and its click rounds' reads: the pass so far stays within its allowance and, while every read is true, exact |
| MainJob.PassStep | src/main.rs:187-201 | one step of the pass: the read, then the step's clicks for a valid region; the run so far follows the steps up to this one, or the pass was cut by a false read within its allowance |
| MainJob.RunPass | src/main.rs:187-201 | one pass in list order, skipping invalid regions; the whole pass plan, or a prefix of it when cancelled; at most one read per step plus the pass plan's allowance, and with every read true the pass is complete after exactly those step reads plus its rounds' reads |
| MainJob.PassDone | src/main.rs:184-211 | a completed pass extends a run of `k` passes to `k + 1` |
| MainJob.PassCut | src/main.rs:184-211 | a pass cut short after `k` passes follows a prefix of `k + 1` passes |
| MainJob.RunSequence | src/main.rs:184-211 | pass after pass until stopped or until the cycle limit; a finished run did exactly the limited number of passes, and a cancelled one a prefix of one more; the reads stay within what the limited passes demand, a run whose reads all came back true finished with exactly its checks plus its rounds' reads, so a flag that stays set for that many reads lets it finish |
| MainJob.SequenceDemandMono | src/main.rs:184-211 | more passes allow more reads |
| MainJob.CountPass | src/main.rs:185-201 | a pass taking a read, its step reads and its rounds' reads keeps the run within what its passes demand and, while every read is true, exact |
| MainJob.SequenceEnd | src/main.rs:184-211 | however the cycle loop ends, its reads are within what the limited passes demand; with every read true it finished; enough true reads make it finish |
| MainJob.Turn | src/main.rs:185-210 | one turn of the cycle loop keeps the run sound, following whole passes and within its read allowance (exact while every read is true), or ends it finished at the limit, or cancelled within one more pass's allowance |
| MainJob.CountDown | src/main.rs:203-210 | `Some(0)` and `Some(1)` end the run, a larger count goes down by one, and `None` never ends it |
| MainJob.NextPass | src/main.rs:185-201 | a flag read and, if still running, a pass appended to the run so far; at most one read plus the pass's allowance, and with every read true the pass is complete and took exactly its reads |
| MainJob.NoPass | src/main.rs:185 | a run of `k` whole passes follows a prefix of `k + 1` passes |
| MainJob.AnotherPass | src/main.rs:185-201 | `k` whole passes and then a possibly cut pass follow a prefix of `k + 1` passes, and all of it when the pass was whole |
| MainJob.SinglePrefix | src/main.rs:160-175 | a single-mode run follows a prefix of its configured plan |
| MainJob.SequencePrefix | src/main.rs:184-211 | a sequence-mode run follows a prefix of its configured plan |
| MainJob.Work | src/main.rs:149-213 | the arm for a usable configuration: moves are chained, clicks follow a prefix of the plan, a finished run followed the whole limited plan, and the time slept matches the sampled delays; a limited run takes at most `Demand` reads, a run whose reads all came back true finished after exactly `Overhead` plus its rounds' reads, and a flag set for `Demand` reads makes it finish |
| MainJob.DemandCovers | src/main.rs:149-213 | a run that carried out the whole limited plan took no more reads than the configuration demands |
| MainJob.IdleThenWork | src/main.rs:150-158 | the idle iterations before the work add sleeps and no clicks |
| MainJob.Spawn | src/main.rs:145-214 | idles 150 ms per unusable configuration, then works on the first usable one; cancellation is the only other way out; when the first usable snapshot is limited and the flag stays set for the idles, one read and that snapshot's demand, the worker finishes there; with every read true it finished after exactly those reads |
| MainJob.SpawnLive | src/main.rs:145-158 | the worker stops idling at the first usable snapshot unless the flag is cleared first, and finishes there when enough reads come back true |
| Temp2App.Upsert | src/temp_main2.rs:511-516 | Save Step replaces an existing index and appends otherwise |
| Temp2App.RemoveThenSave | src/temp_main2.rs:429-431 | removing a step and then saving at the adjusted index equals saving at the old index and then removing |
| Temp2App.StaleIndexAfterRemove | src/temp_main2.rs:429-431 | as written, removing step 1 while step 2 is open makes Save overwrite step 3 |
| Temp2App.AppState.EditorAction | src/temp_main2.rs:496-509 | the action Save Step builds: enabled, with the inputs' region, name, clicks, interval and button |
| Temp2App.AppState.New | src/temp_main2.rs:91-117 | the initial state: no job, an empty single-mode configuration, inputs [100,400,100,400], 1-3 s, no limits, editor closed |
| Temp2App.AppState.Start | src/temp_main2.rs:119-215 | no-op while a job exists, even a paused one; otherwise a fresh running job; no other field changes |
| Temp2App.AppState.Stop | src/temp_main2.rs:217-224 | the flag is cleared and the job dropped; no other field changes |
| Temp2App.AppState.Pause | src/temp_main2.rs:226-230 | the flag is cleared but the job kept |
| Temp2App.AppState.BoundsFromDrag | src/temp_main2.rs:232-251 | the drag region goes to the inputs and, outside sequence mode, to the configured region; no other field changes |
| Temp2App.AppState.AddStep | src/temp_main2.rs:368-377 | the editor opens on a new index past the end, with the defaults and the name "Step n+1"; the configuration, job, limits and drag are unchanged |
| Temp2App.AppState.EditStep | src/temp_main2.rs:391-405 | the editor opens on step `i`, loaded so that saving at once stores it back, enabled; the configuration, job, limits and drag are unchanged |
| Temp2App.AppState.SetEnabled | src/temp_main2.rs:407-410 | with the change applied after the list's guard is released: only step `i`'s enabled switch changes, to the box's value, and no other field changes |
| Temp2App.AppState.SetEnabledAsWritten | src/temp_main2.rs:388-410 | as written, the checkbox handler locks the configuration while the list's guard is held; the mutex is not reentrant, so the UI thread hangs |
| Temp2App.AppState.SaveStep | src/temp_main2.rs:495-518 | the editor's action replaces the current index if it exists and is appended otherwise; the editor closes; the inputs, limits, index and job are unchanged |
| Temp2App.AppState.RemoveStepAsWritten | src/temp_main2.rs:429-431 | the step is removed and the editor index left as it was; no other field changes |
| Temp2App.AppState.RemoveStep | src/temp_main2.rs:429-431 | the step is removed and the editor index kept on its step, or the editor closed when its step was removed; the inputs, limits and drag are unchanged |
| Temp2Job.Rounds | src/temp_main2.rs:170-175 | a count of zero or less still allows one round; a positive count allows that many |
| Temp2Job.ActionPlans | src/temp_main2.rs:147-152 | one plan per action, in list order |
| Temp2Job.EnabledUpdate | src/temp_main2.rs:407-410 | switching one action's enabled box changes the count of enabled actions by that action alone |
| Temp2Job.PassReadsMono | src/temp_main2.rs:137-175 | more passes take more flag reads |
| Temp2Job.ApproachedAppend | src/temp_main2.rs:156-163 | two runs whose clicks are each preceded by a move to the click point make such a run |
| Temp2Job.PacedAppend | src/temp_main2.rs:137-207 | two paced runs in a row make a paced run whose clicks are theirs in order |
| Temp2Job.MoveAndClick | src/temp_main2.rs:153-163 | a human-like move to a point sampled in the region, then a click there |
| Temp2Job.ClickEvents | src/temp_main2.rs:156-163 | a move-and-click is one approached click and no sleep |
| Temp2Job.SleepEvents | src/temp_main2.rs:165-166 | a sleep clicks nothing and lasts the sampled delay |
| Temp2Job.ClickRoundSnoc | src/temp_main2.rs:152-167 | a click of the target and a sleep extend a run that follows a plan by that target |
| Temp2Job.LastClick | src/temp_main2.rs:194-200 | the final click of a finished single-mode run hits the target with no delay after it |
| Temp2Job.RunAction | src/temp_main2.rs:152-167 | `clicks_per_cycle` clicks of the action's target, each followed by a delay from its interval |
| Temp2Job.ActionSnoc | src/temp_main2.rs:147-168 | an action's run, or nothing for a disabled action, extends the run of the pass so far |
| Temp2Job.RunPass | src/temp_main2.rs:147-168 | a pass over the enabled actions, with a flag read before each; cancelled only before an enabled action; completed exactly when all those reads came back true, after one read per enabled action |
| Temp2Job.PassSnoc | src/temp_main2.rs:137-175 | a completed pass extends a run of `k` passes to `k + 1` |
| Temp2Job.PassCut | src/temp_main2.rs:147-150 | a pass cut before action `j` extends a run of `k` passes by the actions before `j` |
| Temp2Job.CutAtStart | src/temp_main2.rs:137 | a run of whole passes is a run cut before the first action of the next |
| Temp2Job.NextPass | src/temp_main2.rs:137-168 | a pass appended to the run so far, whole or cut before an action; whole exactly when its reads came back true, after one read per enabled action, and at most that many otherwise |
| Temp2Job.RunSequence | src/temp_main2.rs:137-175 | passes until stopped or until the cycle counter reaches zero; a finished run did exactly `max(n, 1)` passes after exactly their reads, a cancelled one whole passes plus part of one; with a limit it finishes exactly when the flag stays set for the reads of `max(n, 1)` passes |
| Temp2Job.Turn | src/temp_main2.rs:137-175 | one turn of the outer loop keeps the run paced, following whole passes, with exactly their reads, or ends it with the outcome and counts the whole run promises |
| Temp2Job.EndBetweenPasses | src/temp_main2.rs:137 | a false read before a pass cancels the run after whole passes, with one read more than they took |
| Temp2Job.EndInPass | src/temp_main2.rs:147-150 | a false read inside a pass cancels the run with the actions before it done |
| Temp2Job.RunSingle | src/temp_main2.rs:176-205 | clicks until stopped or until the click counter reaches zero; the clicks follow the target, and a finished run ends on a click with no delay after it; one read per click, and it finishes exactly when the flag stays set for the budgeted clicks |
| Temp2Job.IdleLoop | src/temp_main2.rs:142-145 | idling until the flag reads false clicks nothing; it sleeps 100 ms per turn, or not at all when there is no region |
| Temp2Job.Job | src/temp_main2.rs:131-207 | the worker: a configuration with nothing to click only idles until cancelled; otherwise each arm's guarantees hold: where single-mode clicks land, the passes or partial pass of sequence mode, the exact read counts, and that a limited run finishes exactly when the flag stays set long enough |
| Temp2Job.PassPlanExample | src/temp_main2.rs:147-152 | enabled actions of two and three clicks and a disabled one ask for five clicks per pass |
| Temp2Job.CycleCountExamples | src/temp_main2.rs:170-175 | counts 0 and -5 run once; 3 runs three times |
| Temp3App.AppState.EditorStep | src/temp_main3.rs:436-449 | the step Save builds: enabled, with the editor's region, name, clicks, interval and button |
| Temp3App.AppState.Default | src/temp_main3.rs:71-91 | the default state: no job, no steps, one cycle, editor defaults and the name "New Step" |
| Temp3App.AppState.Start | src/temp_main3.rs:98-151 | no-op while a job exists; otherwise a fresh running job; no other field changes |
| Temp3App.AppState.Stop | src/temp_main3.rs:153-160 | the flag is cleared and the job dropped; no other field changes |
| Temp3App.AppState.Pause | src/temp_main3.rs:162-166 | the flag is cleared but the job kept |
| Temp3App.AppState.SelectStepForEdit | src/temp_main3.rs:168-184 | an existing step is selected and loaded so that saving at once stores it, enabled; an index past the end changes nothing; the steps, limits and drag are unchanged |
| Temp3App.AppState.MoveStepUp | src/temp_main3.rs:186-194 | swaps with the predecessor, the selection follows its step, and the steps are kept; nothing else changes |
| Temp3App.AppState.MoveStepDown | src/temp_main3.rs:196-204 | swaps with the successor when there is one, the selection follows its step, and the steps are kept; nothing else changes |
| Temp3App.AppState.BoundsFromDrag | src/temp_main3.rs:206-215 | the drag region goes to the editor's bounds; nothing else changes |
| Temp3App.AppState.RemoveStep | src/temp_main3.rs:361-367 | the step is removed, and the selection is cleared or kept on its step; nothing else changes |
| Temp3App.AppState.SaveStep | src/temp_main3.rs:435-460 | replaces the selected step and clears the selection, or appends; the name proposed next is "Step len+1"; the limits, drag and other editor fields are unchanged |
| Temp3Job.CycleLimit | src/temp_main3.rs:104 | no limit when "infinite" is ticked or no count is set; otherwise the count |
| Events.CutInFlatten | src/temp_main3.rs:124-138 | the steps done so far plus part of the next follow a prefix of the pass |
| Temp3Job.RunStep | src/temp_main3.rs:125-137 | the step's clicks, with a flag read before each, or a prefix of them when cancelled |
| Temp3Job.StepOfPass | src/temp_main3.rs:124-126 | one step of a pass: a disabled step adds nothing; an enabled step extends the pass so far by its clicks, or leaves a prefix of the pass when a read is false |
| Temp3Job.RunPass | src/temp_main3.rs:124-138 | a pass over the enabled steps that stops mid-step at the first false read |
| Temp3Job.PassPart | src/temp_main3.rs:122-138 | `k` passes plus part of a pass follow a prefix of `k + 1` passes |
| Temp3Job.CountClicks | src/temp_main3.rs:126 | every click has a flag read of its own |
| Temp3Job.WholePasses | src/temp_main3.rs:122 | a run of `k` whole passes follows a prefix of `k + 1` |
| Temp3Job.NextPass | src/temp_main3.rs:122-138 | a pass appended to the run so far; completed exactly when its reads came back true, after one read per click of the pass, and at most that many otherwise |
| Temp3Job.RunSequence | src/temp_main3.rs:122-144 | passes until stopped or until the counter reaches zero; a finished run did exactly `max(n, 1)` passes after exactly their reads, and a cancelled one a prefix of one more; with a limit it finishes exactly when the flag stays set for the reads of `max(n, 1)` passes |
| Temp3Job.Turn | src/temp_main3.rs:122-144 | one turn of the cycle loop keeps the run paced and following whole passes with exactly their reads, or ends it with the outcome and counts the whole run promises |
| Temp3Job.ClickReadsMono | src/temp_main3.rs:122-144 | more passes take more flag reads |
| Temp3Job.ClickReadsProduct | src/temp_main3.rs:122-138 | `n` passes take `n` times one read per pass plus one per click |
| Temp3Job.Job | src/temp_main3.rs:106-145 | the worker over the copied steps; with no limit it only ends when cancelled; with a limit it finishes exactly when the flag stays set for the reads of `max(n, 1)` passes, having made exactly those passes |
| Temp3Job.RepeatPrefixOf | src/temp_main3.rs:122-144 | `k` passes are a prefix of `k + 1` passes |
| SpawnJob.RoundFacts | spawn_temp.rs:65-89 | a round clicks once, at its point, and sleeps exactly its delay |
| SpawnJob.ClickRoundsSnoc | spawn_temp.rs:65-89 | one more click appends its round, moving from the previous click |
| SpawnJob.ClickRoundsLog | spawn_temp.rs:21-132 | the trace of a clicking run holds exactly its clicks, in order |
| SpawnJob.ClickRoundsSleep | spawn_temp.rs:21-132 | the trace of a clicking run sleeps exactly the sampled delays |
| SpawnJob.ClickRoundsApproach | spawn_temp.rs:70-82 | every click is directly preceded by a jump or a human-like move to that very point |
| SpawnJob.IdlesFacts | spawn_temp.rs:34-38 | idling clicks nothing and sleeps 200 ms per iteration |
| SpawnJob.SamplePoint | spawn_temp.rs:66-67 | the sampled point lies inside the region |
| SpawnJob.ClickOnce | spawn_temp.rs:65-89 | a click inside the target's region with its button, then a delay from its interval |
| SpawnJob.IdleLoop | spawn_temp.rs:21-38 | idles until the flag reads false, or stops at once when the click budget is zero |
| SpawnJob.RunSingle | spawn_temp.rs:92-127 | clicks until stopped or until the budget is spent; the clicks follow the target and never exceed the budget |
| SpawnJob.CyclesSnoc | spawn_temp.rs:43-63 | a cycle more is the cycles so far, then the sequence from where the current cycle started |
| SpawnJob.DoneClick | spawn_temp.rs:79-83 | a click at the cursor is owed by the plan and adds one to the action's count |
| SpawnJob.PartialWhole | spawn_temp.rs:43-60 | an action that has had all its clicks completes that action of the cycle |
| SpawnJob.DoneAdvance | spawn_temp.rs:58-60 | moving to the next action owes nothing new |
| SpawnJob.DoneWrap | spawn_temp.rs:47-48 | after the last action's clicks, the run has done exactly one cycle more |
| SpawnJob.DoneRestart | spawn_temp.rs:57 | a cycle that starts afresh owes nothing beyond the cycles completed |
| SpawnJob.PartialPrefix | spawn_temp.rs:40-89 | the clicks owed in a cycle under way are a prefix of the whole cycle |
| SpawnJob.DonePrefix | spawn_temp.rs:40-89 | what a run owes at any cursor is a prefix of its cycles so far plus one |
| SpawnJob.Advance | spawn_temp.rs:43-63 | on to the next action, or after the last one a cycle counted, stopping at the limit and otherwise wrapping to the first action; each advance is one more cursor move in the read count |
| SpawnJob.SequenceReadsMono | spawn_temp.rs:40-89 | more cycles take more flag reads |
| SpawnJob.ShortOfLimit | spawn_temp.rs:40-89 | while fewer cycles than the limit are done, the reads so far are fewer than the limited cycles take |
| SpawnJob.ClickAtCursor | spawn_temp.rs:65-89 | a click of the cursor's action keeps the run following the plan up to the cursor |
| SpawnJob.OwedPrefix | spawn_temp.rs:40-89 | whatever the cursor, the clicks so far follow a prefix of the cycles completed plus one |
| SpawnJob.SequenceTurn | spawn_temp.rs:40-89 | one iteration of sequence mode keeps the cursor valid and the run following the plan, or ends the run at the cycle limit; every iteration takes exactly one flag read |
| SpawnJob.RunSequence | spawn_temp.rs:21-89 | clicks the actions from the cursor on, cycle after cycle; a finished run did exactly `max(m, 1)` cycles and left the cursor on the last action, after exactly their reads; it finishes exactly when the flag stays set for those reads |
| SpawnJob.FromStart | spawn_temp.rs:43-63 | cycles started from the first action are repetitions of the whole sequence |
| SpawnJob.RepeatFront | spawn_temp.rs:43-63 | one pass and then `k` more are `k + 1` passes |
| SpawnJob.Job | spawn_temp.rs:21-132 | the worker: with nothing to click it idles; otherwise single or sequence mode with their guarantees: where the clicks land, the prefix of cycles a cancelled run made, the exact reads, and that a limited run finishes exactly when the flag stays set long enough |

## Left out

- Threads, locks, `join` and the thread handles are left out. A worker is a method that runs to completion. The job flag is read through `Events.Flag`.
- `f32` seconds become integer milliseconds. `main.rs`'s `secs.max(0.01)` becomes a wait of `max(ms, 10)`. The `sqrt` step estimate in `human_mouse.rs` becomes an arbitrary non-negative integer.
- The egui user interface is left out: widgets, text fields, `enter_picker`/`exit_picker` and the picker overlay. The scale from logical to physical pixels is left out, because drag corners arrive already rounded. `query_monitors` is left out; the monitor list is a parameter.
- `human_move_and_click` and `HumanMouseSettings` (used by `main.rs`) are not part of this model. A call becomes one `HumanMoveClick` event. In the other workers, a call of `move_mouse_human` becomes one `HumanMove` event, and `HumanMouse.MoveMouseHuman` describes the moves it makes.
- HumanMouse.Path / HumanMouse.MoveMouseHuman: the curve is evaluated in exact `real` arithmetic, where `src/human_mouse.rs:22-31` uses `f64`. The hull bound (every point between the smallest and largest control coordinate on its axis) holds over the reals; `f64` rounding of the Bernstein sum can move a truncated point by one pixel, for instance just below a common integer coordinate on a vertical move, and that is not captured. The endpoints at `t = 0` and `t = 1` are exact in `f64` too. The `i32` overflow of the distance estimate `(end_x - start_x).pow(2)` (line 16) for a difference above 46340, and of `2 * (end_x - start_x)` at line 12, is not modelled: the step count is any non-negative integer before the clamp, and the control points use unbounded integers.
- `gen_range` panics on an empty range. Where the code does not check for this, the model requires non-empty ranges and ordered intervals.
- Temp3App.AppState.MoveStepUp: requires an index inside the list, because `Vec::swap` panics past the end.
- `spawn_temp.rs` re-reads the configuration on every iteration. The model holds it fixed for the run, except for the cursor, so each branch is one loop. `main.rs` commits to its first usable snapshot, so nothing is lost there.
- `spawn_temp.rs` is a fragment: it starts with a shell comment and writes through a lock guard that is not `mut`. The model follows the evident meaning. The `u32` counters do not wrap; overflow would take billions of clicks.
- `i32` overflow in `union_rect` is excluded by a precondition (every monitor edge fits in an `i32`). The drag arithmetic of `set_bounds_from_drag` (src/main.rs:472-475) is modelled on unbounded integers: a drag corner plus the monitor origin beyond the `i32` range, which panics in a debug build and wraps in a release build, is not modelled. The `i32` decrements of the `temp_main*` counters require a value above `i32::MIN`.
- That a stopped job's thread ends quickly is stated only as termination of each loop once the flag reads false. That a limited job finishes is stated through the flag: each job's contract counts its flag reads and finishes the run when the flag stays set for as many reads as the limit needs.
- Temp2Job.Job: runs the whole job on one configuration value. The worker of `temp_main2.rs` takes the lock at the top of each outer iteration (lines 137-138) and drops it at the end of the iteration, so between passes the UI could change the configuration (drag, Save Step, removal, the mode switch); the model treats the configuration as if nobody edited it while the job runs, and does not capture those edits.
- The CLI `main` functions, `src/update.rs` and the `eprintln!` logging are not part of this model.

## Findings

| source | as written | input that shows it | evidently intended | confidence | as-written member | corrected member |
|---|---|---|---|---|---|---|
| src/temp_main2.rs:429-431 | removing a step leaves `current_sequence_index` unchanged, and Save Step (lines 511-516) then writes at that index | steps [1, 2, 3], step 2 (index 1) open in the editor, remove step 1, then Save: step 3 is overwritten and step 2 keeps its old contents | the index follows its step, or the editor closes when its step is removed, as `temp_main3.rs` and `main.rs` do | not executed | Temp2App.StaleIndexAfterRemove, Temp2App.AppState.RemoveStepAsWritten | Temp2App.RemoveThenSave, Temp2App.AppState.RemoveStep |
| src/temp_main2.rs:388-410 | the enable checkbox handler calls `self.config.lock()` while the guard taken at line 388 for drawing the step list is still alive; `parking_lot::Mutex` is not reentrant | ticking the checkbox of any step while sequence mode shows the list: the UI thread blocks on its own lock and the step's `enabled` never changes | record the toggle during the list loop and apply it after the guard is dropped, as the removal button does with `to_remove` | not executed | Temp2App.AppState.SetEnabledAsWritten | Temp2App.AppState.SetEnabled, Temp2Job.EnabledUpdate |
