/**
 * The application state of src/temp_main3.rs: job control, the step list with
 * its selection `editing_step_idx`, and the step editor. A job runs on a copy
 * of the steps taken by `start`.
 */
module Temp3App {
  import opened Wrappers
  import opened Geometry
  import opened Temp2Job
  import opened StepList
  import MainApp

  class AppState {
    var job: Option<MainApp.ClickJob>
    // sequence
    var seqSteps: seq<Action>
    var editingStepIdx: Option<nat>
    var sequenceCycles: Option<int>
    var infiniteCycles: bool
    // picker: the drag corners, already converted to integer pixels
    var dragStart: Option<Point>
    var dragEnd: Option<Point>
    // step editor: `[min_x, max_x, min_y, max_y]`, delays in ms
    var editBounds: seq<int>
    var editButtonLeft: bool
    var editMinMs: int
    var editMaxMs: int
    var editName: string
    var editClicks: int

    /** The bounds inputs have their four entries and the selection denotes a step. */
    predicate Valid()
      reads this
    {
      |editBounds| == 4 && (editingStepIdx.Some? ==> editingStepIdx.value < |seqSteps|)
    }

    function EditBounds(): Bounds
      reads this
      requires |editBounds| == 4
    {
      Bounds(editBounds[0], editBounds[1], editBounds[2], editBounds[3])
    }

    /** The step Save/Add builds from the editor: always enabled. */
    function EditorStep(): (a: Action)
      reads this
      requires |editBounds| == 4
      ensures a.enabled && a.bounds == EditBounds() && a.name == editName && a.clicksPerCycle == editClicks
      ensures a.minMs == editMinMs && a.maxMs == editMaxMs && a.button == (if editButtonLeft then Left else Right)
    {
      Action(EditBounds(), if editButtonLeft then Left else Right, editMinMs, editMaxMs, editClicks, editName, true)
    }

    /** The editor fields, as one value. */
    function EditorFields(): (seq<int>, bool, int, int, string, int)
      reads this
    {
      (editBounds, editButtonLeft, editMinMs, editMaxMs, editName, editClicks)
    }

    /** `AppState::default`. */
    constructor Default()
      ensures Valid() && job.None? && seqSteps == [] && editingStepIdx.None?
      ensures sequenceCycles == Some(1) && !infiniteCycles && dragStart.None? && dragEnd.None?
      ensures EditBounds() == Bounds(100, 400, 100, 400) && editButtonLeft && editMinMs == 1000 && editMaxMs == 3000
      ensures editName == "New Step" && editClicks == 1
    {
      job := None;
      seqSteps := [];
      editingStepIdx := None;
      sequenceCycles := Some(1);
      infiniteCycles := false;
      dragStart, dragEnd := None, None;
      editBounds := [100, 400, 100, 400];
      editButtonLeft := true;
      editMinMs, editMaxMs := 1000, 3000;
      editName := "New Step";
      editClicks := 1;
    }

    /**
     * `start`: a no-op while a job exists, even a paused one; otherwise start a
     * worker (`Temp3Job.Job` on a copy of the steps).
     */
    method Start()
      modifies this`job
      ensures old(job).Some? ==> job == old(job)
      ensures old(job).None? ==> job.Some? && fresh(job.value) && job.value.running
      ensures seqSteps == old(seqSteps) && editingStepIdx == old(editingStepIdx) && EditorFields() == old(EditorFields())
    {
      if job.Some? {
        return;
      }
      var j := new MainApp.ClickJob.Spawn();
      job := Some(j);
    }

    /** `stop`: clear the flag of the running job, wait for it, and drop it. */
    method Stop()
      modifies this`job, if job.Some? then {job.value} else {}
      ensures job.None?
      ensures old(job).Some? ==> !old(job).value.running
      ensures seqSteps == old(seqSteps) && editingStepIdx == old(editingStepIdx) && EditorFields() == old(EditorFields())
    {
      if job.Some? {
        job.value.Stop();
        job := None;
      }
    }

    /** `pause`: clear the flag but keep the job, so `start` stays a no-op until `stop`. */
    method Pause()
      modifies if job.Some? then {job.value} else {}
      ensures job == old(job)
      ensures job.Some? ==> !job.value.running
    {
      if job.Some? {
        job.value.Stop();
      }
    }

    /**
     * `select_step_for_edit`: copy step `idx` into the editor and select it; an
     * index past the end changes nothing. Saving right away stores the same step, enabled.
     */
    method SelectStepForEdit(idx: nat)
      requires Valid()
      modifies this`editBounds, this`editButtonLeft, this`editMinMs, this`editMaxMs, this`editName, this`editClicks,
               this`editingStepIdx
      ensures Valid() && seqSteps == old(seqSteps) && job == old(job)
      ensures idx < |seqSteps| ==> editingStepIdx == Some(idx) && EditorStep() == seqSteps[idx].(enabled := true)
      ensures idx >= |seqSteps| ==> editingStepIdx == old(editingStepIdx) && EditorFields() == old(EditorFields())
    {
      if idx < |seqSteps| {
        var s := seqSteps[idx];
        editBounds := [s.bounds.minX, s.bounds.maxX, s.bounds.minY, s.bounds.maxY];
        editButtonLeft := s.button == Left;
        editMinMs, editMaxMs := s.minMs, s.maxMs;
        editName := s.name;
        editClicks := s.clicksPerCycle;
        editingStepIdx := Some(idx);
      }
    }

    /**
     * `move_step_up`: swap step `idx` with its predecessor when `idx > 0` (the
     * source has no upper check; `Vec::swap` panics past the end); the selection
     * follows its step.
     */
    method MoveStepUp(idx: nat)
      requires Valid() && (idx > 0 ==> idx < |seqSteps|)
      modifies this`seqSteps, this`editingStepIdx
      ensures Valid() && job == old(job) && EditorFields() == old(EditorFields())
      ensures idx > 0 ==>
        seqSteps == Swap(old(seqSteps), idx, idx - 1) && editingStepIdx == SwapSelection(old(editingStepIdx), idx, idx - 1)
      ensures idx == 0 ==> seqSteps == old(seqSteps) && editingStepIdx == old(editingStepIdx)
      ensures multiset(seqSteps) == multiset(old(seqSteps))
      ensures editingStepIdx.Some? ==> seqSteps[editingStepIdx.value] == old(seqSteps)[old(editingStepIdx).value]
    {
      if idx > 0 {
        SwapPermutes(seqSteps, idx, idx - 1);
        if editingStepIdx.Some? {
          SwapKeepsSelection(seqSteps, idx, idx - 1, editingStepIdx);
        }
        seqSteps := Swap(seqSteps, idx, idx - 1);
        editingStepIdx := SwapSelection(editingStepIdx, idx, idx - 1);
      }
    }

    /** `move_step_down`: swap step `idx` with its successor when there is one; the selection follows its step. */
    method MoveStepDown(idx: nat)
      requires Valid()
      modifies this`seqSteps, this`editingStepIdx
      ensures Valid() && job == old(job) && EditorFields() == old(EditorFields())
      ensures idx + 1 < |old(seqSteps)| ==>
        seqSteps == Swap(old(seqSteps), idx, idx + 1) && editingStepIdx == SwapSelection(old(editingStepIdx), idx, idx + 1)
      ensures idx + 1 >= |old(seqSteps)| ==> seqSteps == old(seqSteps) && editingStepIdx == old(editingStepIdx)
      ensures multiset(seqSteps) == multiset(old(seqSteps))
      ensures editingStepIdx.Some? ==> seqSteps[editingStepIdx.value] == old(seqSteps)[old(editingStepIdx).value]
    {
      if idx + 1 < |seqSteps| {
        SwapPermutes(seqSteps, idx, idx + 1);
        if editingStepIdx.Some? {
          SwapKeepsSelection(seqSteps, idx, idx + 1, editingStepIdx);
        }
        seqSteps := Swap(seqSteps, idx, idx + 1);
        editingStepIdx := SwapSelection(editingStepIdx, idx, idx + 1);
      }
    }

    /** `bounds_from_drag`: the normalised drag region goes to the editor's bounds. */
    method BoundsFromDrag()
      requires Valid()
      modifies this`editBounds
      ensures Valid() && seqSteps == old(seqSteps) && editingStepIdx == old(editingStepIdx) && job == old(job)
      ensures old(dragStart).Some? && old(dragEnd).Some? ==>
        EditBounds() == DragBounds(old(dragStart).value, old(dragEnd).value, Point(0, 0))
      ensures old(dragStart).None? || old(dragEnd).None? ==> editBounds == old(editBounds)
      ensures editName == old(editName) && editClicks == old(editClicks) && editButtonLeft == old(editButtonLeft)
      ensures editMinMs == old(editMinMs) && editMaxMs == old(editMaxMs)
    {
      if dragStart.Some? && dragEnd.Some? {
        var r := DragBounds(dragStart.value, dragEnd.value, Point(0, 0));
        editBounds := [r.minX, r.maxX, r.minY, r.maxY];
      }
    }

    /**
     * The `Action::Remove(i)` handler: remove step `i` (the list only offers
     * existing steps); a selection of `i` is cleared and a later one moves down.
     */
    method RemoveStep(i: nat)
      requires Valid() && i < |seqSteps|
      modifies this`seqSteps, this`editingStepIdx
      ensures Valid() && job == old(job) && EditorFields() == old(EditorFields())
      ensures seqSteps == RemoveAt(old(seqSteps), i)
      ensures multiset(seqSteps) + multiset{old(seqSteps)[i]} == multiset(old(seqSteps))
      ensures editingStepIdx == RemoveSelection(old(editingStepIdx), i)
      ensures editingStepIdx.Some? ==> seqSteps[editingStepIdx.value] == old(seqSteps)[old(editingStepIdx).value]
    {
      RemovePermutes(seqSteps, i);
      if editingStepIdx.Some? {
        RemoveKeepsSelection(seqSteps, i, editingStepIdx);
      }
      seqSteps := RemoveAt(seqSteps, i);
      editingStepIdx := RemoveSelection(editingStepIdx, i);
    }

    /**
     * The Save/Add button: replace the selected step and clear the selection, or
     * append when nothing is selected; either way the name proposed next is
     * "Step {len + 1}".
     */
    method SaveStep()
      requires Valid()
      modifies this`seqSteps, this`editingStepIdx, this`editName
      ensures Valid() && editingStepIdx.None? && job == old(job)
      ensures old(editingStepIdx).Some? ==>
        seqSteps == old(seqSteps)[old(editingStepIdx).value := old(EditorStep())]
      ensures old(editingStepIdx).None? ==> seqSteps == old(seqSteps) + [old(EditorStep())]
      ensures editName == StepName(|seqSteps| + 1)
      ensures editBounds == old(editBounds) && editClicks == old(editClicks) && editButtonLeft == old(editButtonLeft)
      ensures editMinMs == old(editMinMs) && editMaxMs == old(editMaxMs)
    {
      var step := EditorStep();
      if editingStepIdx.Some? {
        seqSteps := seqSteps[editingStepIdx.value := step];
        editingStepIdx := None;
      } else {
        seqSteps := seqSteps + [step];
      }
      editName := StepName(|seqSteps| + 1);
    }
  }
}
