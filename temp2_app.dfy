/**
 * The application state of src/temp_main2.rs: job control (`start`, `stop`,
 * `pause`), the drag picker and the sequence editor, whose selection is the
 * index `current_sequence_index` plus the `editing_sequence` switch. The
 * configuration shared with the worker is a field of the state.
 */
module Temp2App {
  import opened Wrappers
  import opened Geometry
  import opened Temp2Job
  import opened StepList
  import MainApp

  /**
   * Save Step's store: replace entry `idx` when it exists, append otherwise.
   */
  function Upsert<T>(s: seq<T>, idx: nat, x: T): (r: seq<T>)
    ensures idx < |s| ==> |r| == |s| && r[idx] == x && forall k :: 0 <= k < |s| && k != idx ==> r[k] == s[k]
    ensures idx >= |s| ==> r == s + [x]
  {
    if idx < |s| then s[idx := x] else s + [x]
  }

  /**
   * Removing an entry and then saving at the selection as `RemoveSelection`
   * moves it does the same as saving first and removing afterwards: the save
   * lands on the step that was selected.
   */
  lemma RemoveThenSave<T>(s: seq<T>, i: nat, idx: nat, x: T)
    requires i < |s| && idx < |s| && idx != i
    ensures RemoveSelection(Some(idx), i).Some?
    ensures Upsert(RemoveAt(s, i), RemoveSelection(Some(idx), i).value, x) == RemoveAt(Upsert(s, idx, x), i)
  {
    var j := RemoveSelection(Some(idx), i).value;
    var lhs, rhs := Upsert(RemoveAt(s, i), j, x), RemoveAt(Upsert(s, idx, x), i);
    assert |lhs| == |rhs|;
    forall k | 0 <= k < |lhs|
      ensures lhs[k] == rhs[k]
    {
    }
  }

  /**
   * The removal handler as written leaves the index alone: with steps
   * `[1, 2, 3]` and step 2 (index 1) open in the editor, removing step 1 and
   * saving overwrites step 3 and leaves step 2 as it was.
   */
  lemma StaleIndexAfterRemove()
    ensures Upsert(RemoveAt([1, 2, 3], 0), 1, 9) == [2, 9]
    ensures RemoveAt(Upsert([1, 2, 3], 1, 9), 0) == [9, 3]
  {
    assert RemoveAt([1, 2, 3], 0) == [2, 3];
    assert Upsert([1, 2, 3], 1, 9) == [1, 9, 3];
  }

  /** The state of the `parking_lot` mutex around the shared configuration, seen from the UI thread. */
  datatype Guard = Free | Held

  /**
   * `Mutex::lock` from the UI thread: it returns a guard when the mutex is
   * free, and never returns (`None`) when this thread already holds it, since
   * the mutex is not reentrant.
   */
  function Lock(g: Guard): (r: Option<Guard>)
    ensures r.None? <==> g == Held
    ensures r.Some? ==> r.value == Held
  {
    if g == Held then None else Some(Held)
  }

  class AppState {
    var config: Config
    var job: Option<MainApp.ClickJob>
    // single-area inputs: `[min_x, max_x, min_y, max_y]`, delays in ms, limits
    var boundsInputs: seq<int>
    var clickButtonLeft: bool
    var minMs: int
    var maxMs: int
    var finiteClicks: Option<int>
    var sequenceCycles: Option<int>
    // picker: the drag corners, already converted to integer pixels
    var dragStart: Option<Point>
    var dragEnd: Option<Point>
    // sequence editor
    var editingSequence: bool
    var currentSequenceIndex: nat
    var sequenceEditName: string
    var sequenceEditClicks: int

    predicate Valid()
      reads this
    {
      |boundsInputs| == 4
    }

    /** The region typed into the four bounds inputs. */
    function InputBounds(): Bounds
      reads this
      requires |boundsInputs| == 4
    {
      Bounds(boundsInputs[0], boundsInputs[1], boundsInputs[2], boundsInputs[3])
    }

    /** The action Save Step builds from the editor: always enabled. */
    function EditorAction(): (a: Action)
      reads this
      requires |boundsInputs| == 4
      ensures a.enabled && a.bounds == InputBounds() && a.name == sequenceEditName
      ensures a.clicksPerCycle == sequenceEditClicks && a.minMs == minMs && a.maxMs == maxMs
      ensures a.button == (if clickButtonLeft then Left else Right)
    {
      Action(InputBounds(), if clickButtonLeft then Left else Right, minMs, maxMs, sequenceEditClicks, sequenceEditName, true)
    }

    /** `AppState::new`. */
    constructor New()
      ensures Valid() && job.None?
      ensures config == Config(None, Left, 1000, 3000, false, [])
      ensures InputBounds() == Bounds(100, 400, 100, 400) && clickButtonLeft && minMs == 1000 && maxMs == 3000
      ensures finiteClicks.None? && sequenceCycles.None? && dragStart.None? && dragEnd.None?
      ensures !editingSequence && currentSequenceIndex == 0 && sequenceEditName == "" && sequenceEditClicks == 1
    {
      config := Config(None, Left, 1000, 3000, false, []);
      job := None;
      boundsInputs := [100, 400, 100, 400];
      clickButtonLeft := true;
      minMs, maxMs := 1000, 3000;
      finiteClicks, sequenceCycles := None, None;
      dragStart, dragEnd := None, None;
      editingSequence := false;
      currentSequenceIndex := 0;
      sequenceEditName := "";
      sequenceEditClicks := 1;
    }

    /**
     * `start`: a no-op while a job exists, even a paused one; otherwise start a
     * worker (`Temp2Job.Job` on the shared configuration with the current limits).
     */
    method Start()
      modifies this`job
      ensures old(job).Some? ==> job == old(job)
      ensures old(job).None? ==> job.Some? && fresh(job.value) && job.value.running
      ensures config == old(config) && boundsInputs == old(boundsInputs)
      ensures finiteClicks == old(finiteClicks) && sequenceCycles == old(sequenceCycles)
      ensures currentSequenceIndex == old(currentSequenceIndex) && editingSequence == old(editingSequence)
    {
      if job.Some? {
        return;
      }
      var j := new MainApp.ClickJob.Spawn();
      job := Some(j);
    }

    /** `stop`: clear the flag of the running job, wait for it, and drop it. */
    method Stop()
      modifies this`job, if job.Some? then {job.value} else {}
      ensures job.None?
      ensures old(job).Some? ==> !old(job).value.running
      ensures config == old(config) && boundsInputs == old(boundsInputs)
      ensures currentSequenceIndex == old(currentSequenceIndex) && editingSequence == old(editingSequence)
    {
      if job.Some? {
        job.value.Stop();
        job := None;
      }
    }

    /**
     * `pause`: clear the flag but keep the job, so the worker ends while a later
     * `start` stays a no-op until `stop`.
     */
    method Pause()
      modifies if job.Some? then {job.value} else {}
      ensures job == old(job)
      ensures job.Some? ==> !job.value.running
    {
      if job.Some? {
        job.value.Stop();
      }
    }

    /**
     * `bounds_from_drag`: the normalised drag region goes to the inputs and, when
     * the configuration is not in sequence mode, to the configured region.
     */
    method BoundsFromDrag()
      requires Valid()
      modifies this`boundsInputs, this`config
      ensures Valid()
      ensures old(dragStart).Some? && old(dragEnd).Some? ==>
        var r := DragBounds(old(dragStart).value, old(dragEnd).value, Point(0, 0));
        InputBounds() == r && config == (if old(config).sequenceMode then old(config) else old(config).(bounds := Some(r)))
      ensures old(dragStart).None? || old(dragEnd).None? ==> boundsInputs == old(boundsInputs) && config == old(config)
      ensures job == old(job) && dragStart == old(dragStart) && dragEnd == old(dragEnd)
      ensures currentSequenceIndex == old(currentSequenceIndex) && editingSequence == old(editingSequence)
    {
      if dragStart.Some? && dragEnd.Some? {
        var r := DragBounds(dragStart.value, dragEnd.value, Point(0, 0));
        boundsInputs := [r.minX, r.maxX, r.minY, r.maxY];
        if !config.sequenceMode {
          config := config.(bounds := Some(r));
        }
      }
    }

    /** The Add Step button: open the editor on a new step at the end of the list. */
    method AddStep()
      modifies this`currentSequenceIndex, this`editingSequence, this`boundsInputs, this`clickButtonLeft,
               this`minMs, this`maxMs, this`sequenceEditName, this`sequenceEditClicks
      ensures Valid() && editingSequence && currentSequenceIndex == |config.sequence|
      ensures InputBounds() == Bounds(100, 400, 100, 400) && clickButtonLeft && minMs == 1000 && maxMs == 3000
      ensures sequenceEditName == StepName(|config.sequence| + 1) && sequenceEditClicks == 1
      ensures config == old(config) && job == old(job)
    {
      currentSequenceIndex := |config.sequence|;
      editingSequence := true;
      boundsInputs := [100, 400, 100, 400];
      clickButtonLeft := true;
      minMs, maxMs := 1000, 3000;
      sequenceEditName := StepName(currentSequenceIndex + 1);
      sequenceEditClicks := 1;
    }

    /** The Edit button of step `i`: load it into the editor; saving right away stores it back, enabled. */
    method EditStep(i: nat)
      requires i < |config.sequence|
      modifies this`currentSequenceIndex, this`editingSequence, this`boundsInputs, this`clickButtonLeft,
               this`minMs, this`maxMs, this`sequenceEditName, this`sequenceEditClicks
      ensures config == old(config) && job == old(job)
      ensures Valid() && editingSequence && currentSequenceIndex == i
      ensures EditorAction() == config.sequence[i].(enabled := true)
    {
      var a := config.sequence[i];
      currentSequenceIndex := i;
      editingSequence := true;
      boundsInputs := [a.bounds.minX, a.bounds.maxX, a.bounds.minY, a.bounds.maxY];
      clickButtonLeft := a.button == Left;
      minMs, maxMs := a.minMs, a.maxMs;
      sequenceEditName := a.name;
      sequenceEditClicks := a.clicksPerCycle;
    }

    /**
     * The enable checkbox of step `i` as written: the handler locks the
     * configuration while the guard taken for drawing the step list is still
     * held, and a `parking_lot` mutex is not reentrant, so the UI thread hangs
     * and the step is never changed. That `lock` blocks on a guard its own
     * thread holds is the modelling assumption, stated by `Lock`; `hung`
     * follows from it rather than from a proof about `parking_lot`.
     */
    method SetEnabledAsWritten(i: nat, enabled: bool) returns (hung: bool)
      requires i < |config.sequence|
      ensures hung
    {
      var listGuard := Lock(Free);
      var toggle := Lock(listGuard.value);
      hung := toggle.None?;
    }

    /**
     * The enable checkbox of step `i`, with the change applied once the list's
     * guard is released (as the removal button does): only that step's
     * `enabled` changes, so a pass runs it exactly when it is now enabled
     * (`Temp2Job.EnabledUpdate`).
     */
    method SetEnabled(i: nat, enabled: bool)
      requires i < |config.sequence|
      modifies this`config
      ensures config == old(config).(sequence := old(config).sequence[i := old(config).sequence[i].(enabled := enabled)])
      ensures |config.sequence| == |old(config).sequence| && config.sequence[i].enabled == enabled
      ensures forall k :: 0 <= k < |config.sequence| && k != i ==> config.sequence[k] == old(config).sequence[k]
      ensures boundsInputs == old(boundsInputs) && job == old(job)
      ensures currentSequenceIndex == old(currentSequenceIndex) && editingSequence == old(editingSequence)
    {
      config := config.(sequence := config.sequence[i := config.sequence[i].(enabled := enabled)]);
    }

    /**
     * Save Step: store the editor's action at `current_sequence_index` when that
     * is an existing step (the length is unchanged), append it otherwise, and
     * close the editor.
     */
    method SaveStep()
      requires Valid()
      modifies this`config, this`editingSequence
      ensures Valid() && !editingSequence
      ensures config == old(config).(sequence := Upsert(old(config).sequence, currentSequenceIndex, old(EditorAction())))
      ensures currentSequenceIndex < |old(config).sequence| ==> |config.sequence| == |old(config).sequence|
      ensures currentSequenceIndex >= |old(config).sequence| ==> |config.sequence| == |old(config).sequence| + 1
      ensures currentSequenceIndex == old(currentSequenceIndex) && boundsInputs == old(boundsInputs) && job == old(job)
    {
      config := config.(sequence := Upsert(config.sequence, currentSequenceIndex, EditorAction()));
      editingSequence := false;
    }

    /** The removal handler as written: remove step `i` and leave the editor's index as it was. */
    method RemoveStepAsWritten(i: nat)
      requires i < |config.sequence|
      modifies this`config
      ensures config == old(config).(sequence := RemoveAt(old(config).sequence, i))
      ensures currentSequenceIndex == old(currentSequenceIndex) && editingSequence == old(editingSequence)
      ensures boundsInputs == old(boundsInputs) && job == old(job)
    {
      config := config.(sequence := RemoveAt(config.sequence, i));
    }

    /**
     * The removal handler with the index kept on its step: an index after `i`
     * moves down, and an editor open on step `i` is closed (see `RemoveThenSave`).
     */
    method RemoveStep(i: nat)
      requires i < |config.sequence|
      modifies this`config, this`editingSequence, this`currentSequenceIndex
      ensures config == old(config).(sequence := RemoveAt(old(config).sequence, i))
      ensures old(currentSequenceIndex) == i ==> !editingSequence && currentSequenceIndex == i
      ensures old(currentSequenceIndex) != i ==>
        editingSequence == old(editingSequence) &&
        Some(currentSequenceIndex) == RemoveSelection(Some(old(currentSequenceIndex)), i)
      ensures old(currentSequenceIndex) < |old(config).sequence| && old(currentSequenceIndex) != i ==>
        config.sequence[currentSequenceIndex] == old(config).sequence[old(currentSequenceIndex)]
      ensures old(currentSequenceIndex) >= |old(config).sequence| ==> currentSequenceIndex >= |config.sequence|
      ensures boundsInputs == old(boundsInputs) && job == old(job)
    {
      config := config.(sequence := RemoveAt(config.sequence, i));
      if currentSequenceIndex == i {
        editingSequence := false;
      } else if currentSequenceIndex > i {
        currentSequenceIndex := currentSequenceIndex - 1;
      }
    }
  }
}
