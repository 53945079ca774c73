/**
 * The application state of src/main.rs (lines 270-567 and the step-list action
 * handler at 745-757): job control, the monitor list, the drag picker and the
 * sequence editor. The job handle is an object shared with its worker thread,
 * so stopping a job is seen as clearing the handle's `running` flag.
 */
module MainApp {
  import opened Wrappers
  import opened Geometry
  import opened MainJob
  import opened StepList

  /** A display: where it starts and how large it is, in physical pixels. */
  datatype Monitor = Monitor(id: nat, name: string, origin: Point, size: Point)

  datatype DisplayChoice = All | One(index: nat)

  /** The edges of a monitor's rectangle `[origin, origin + size]`. */
  function RightEdge(m: Monitor): int { m.origin.x + m.size.x }
  function BottomEdge(m: Monitor): int { m.origin.y + m.size.y }

  /** Every coordinate `union_rect` computes fits in an `i32`, so its additions do not overflow. */
  predicate MonitorInI32(m: Monitor) {
    InI32(m.origin.x) && InI32(m.origin.y) && InI32(RightEdge(m)) && InI32(BottomEdge(m))
  }

  /**
   * `union_rect`: the bounding box `(min_x, min_y, max_x, max_y)` of all
   * monitors, or all zeros when there are none.
   */
  method UnionRect(monitors: seq<Monitor>) returns (minX: int, minY: int, maxX: int, maxY: int)
    requires forall m :: m in monitors ==> MonitorInI32(m)
    ensures monitors == [] ==> minX == 0 && minY == 0 && maxX == 0 && maxY == 0
    ensures forall m :: m in monitors ==>
      minX <= m.origin.x && minY <= m.origin.y && RightEdge(m) <= maxX && BottomEdge(m) <= maxY
    ensures monitors != [] ==>
      (exists m :: m in monitors && m.origin.x == minX) && (exists m :: m in monitors && m.origin.y == minY) &&
      (exists m :: m in monitors && RightEdge(m) == maxX) && (exists m :: m in monitors && BottomEdge(m) == maxY)
  {
    minX, minY, maxX, maxY := I32Max, I32Max, I32Min, I32Min;
    for k := 0 to |monitors|
      invariant forall j :: 0 <= j < k ==>
        minX <= monitors[j].origin.x && minY <= monitors[j].origin.y &&
        RightEdge(monitors[j]) <= maxX && BottomEdge(monitors[j]) <= maxY
      invariant k > 0 ==>
        (exists j :: 0 <= j < k && monitors[j].origin.x == minX) && (exists j :: 0 <= j < k && monitors[j].origin.y == minY) &&
        (exists j :: 0 <= j < k && RightEdge(monitors[j]) == maxX) && (exists j :: 0 <= j < k && BottomEdge(monitors[j]) == maxY)
      invariant k == 0 ==> minX == I32Max && minY == I32Max && maxX == I32Min && maxY == I32Min
    {
      var m := monitors[k];
      assert m in monitors;
      minX := Min(minX, m.origin.x);
      minY := Min(minY, m.origin.y);
      maxX := Max(maxX, RightEdge(m));
      maxY := Max(maxY, BottomEdge(m));
    }
    if monitors == [] {
      minX, minY, maxX, maxY := 0, 0, 0, 0;
    }
  }

  /** The handle of a worker thread: the `running` flag it shares with the thread. */
  class ClickJob {
    var running: bool

    /** `ClickJob::spawn`: the flag starts out set; the thread itself is `MainJob.Spawn`. */
    constructor Spawn()
      ensures running
    {
      running := true;
    }

    /** `ClickJob::stop`. */
    method Stop()
      modifies this
      ensures !running
    {
      running := false;
    }
  }

  function ButtonOf(left: bool): Button { if left then Left else Right }

  class AppState {
    // displays
    var monitors: seq<Monitor>
    var displayChoice: DisplayChoice
    // picker: the drag corners, already converted to physical pixels
    var dragStart: Option<Point>
    var dragEnd: Option<Point>
    // single-mode inputs: `[min_x, max_x, min_y, max_y]`; delays in ms
    var boundsInputs: seq<int>
    var clickButtonLeft: bool
    var minMs: int
    var maxMs: int
    var useFiniteClicks: bool
    var numClicks: nat
    // sequence editor
    var seqSteps: seq<SequenceStep>
    var seqCycles: Option<nat>
    var editingStepIdx: Option<nat>
    var editName: string
    var editClicks: nat
    var editMinMs: int
    var editMaxMs: int
    var editButtonLeft: bool
    var editBoundsFromCurrent: bool
    // engine: the running job, and the configuration shared with its worker
    var job: Option<ClickJob>
    var mode: JobMode

    /**
     * The bounds inputs have their four entries, the selection denotes a step,
     * and every stored step clicks at least once.
     */
    predicate Valid()
      reads this
    {
      |boundsInputs| == 4 &&
      (editingStepIdx.Some? ==> editingStepIdx.value < |seqSteps|) &&
      ClickEach(seqSteps)
    }

    /** The single-mode inputs and the picker state are as they were. */
    twostate predicate InputsKept()
      reads this
    {
      unchanged(this`monitors, this`displayChoice, this`dragStart, this`dragEnd, this`boundsInputs,
                this`clickButtonLeft, this`minMs, this`maxMs, this`useFiniteClicks, this`numClicks)
    }

    /** The sequence editor's state is as it was. */
    twostate predicate EditorKept()
      reads this
    {
      unchanged(this`seqSteps, this`seqCycles, this`editingStepIdx, this`editName, this`editClicks,
                this`editMinMs, this`editMaxMs, this`editButtonLeft, this`editBoundsFromCurrent)
    }

    /** The region typed into the four bounds inputs. */
    function InputBounds(): Bounds
      reads this
      requires |boundsInputs| == 4
    {
      Bounds(boundsInputs[0], boundsInputs[1], boundsInputs[2], boundsInputs[3])
    }

    /** The step the editor describes, as `push_or_update_step_from_editor` would store it. */
    function EditorStep(): (s: SequenceStep)
      reads this
      requires |boundsInputs| == 4
      ensures s.clicks >= 1 && s.clicks >= editClicks
      ensures s.name == editName && s.minMs == editMinMs && s.maxMs == editMaxMs && s.button == ButtonOf(editButtonLeft)
      ensures editBoundsFromCurrent ==> s.bounds == InputBounds()
      ensures !editBoundsFromCurrent && editingStepIdx.Some? && editingStepIdx.value < |seqSteps| ==>
        s.bounds == seqSteps[editingStepIdx.value].bounds
    {
      var b :=
        if editBoundsFromCurrent then InputBounds()
        else if editingStepIdx.Some? && editingStepIdx.value < |seqSteps| then seqSteps[editingStepIdx.value].bounds
        else InputBounds();
      SequenceStep(editName, b, if editClicks >= 1 then editClicks else 1, ButtonOf(editButtonLeft), editMinMs, editMaxMs)
    }

    /** `AppState::default`, with the monitor list passed in instead of queried. */
    constructor Default(displays: seq<Monitor>)
      ensures Valid() && job.None?
      ensures monitors == displays && displayChoice == All
      ensures InputBounds() == Bounds(100, 400, 100, 400) && InputBounds().IsValid()
      ensures seqSteps == [] && seqCycles == Some(1) && editingStepIdx.None? && editName == StepName(1)
      ensures mode == Single(Some(Bounds(100, 400, 100, 400)), Left, 2000, 4500, None)
      ensures dragStart.None? && dragEnd.None?
      ensures clickButtonLeft && minMs == 2000 && maxMs == 4500 && !useFiniteClicks && numClicks == 100
      ensures editClicks == 5 && editMinMs == 500 && editMaxMs == 1500 && editButtonLeft && editBoundsFromCurrent
    {
      monitors := displays;
      displayChoice := All;
      dragStart, dragEnd := None, None;
      boundsInputs := [100, 400, 100, 400];
      clickButtonLeft := true;
      minMs, maxMs := 2000, 4500;
      useFiniteClicks := false;
      numClicks := 100;
      seqSteps := [];
      seqCycles := Some(1);
      editingStepIdx := None;
      editName := "Step 1";
      editClicks := 5;
      editMinMs, editMaxMs := 500, 1500;
      editButtonLeft := true;
      editBoundsFromCurrent := true;
      job := None;
      mode := Single(Some(Bounds(100, 400, 100, 400)), Left, 2000, 4500, None);
      StepNameExamples();
    }

    /* ------------------------- Engine controls ------------------------- */

    /**
     * `start_single`: a no-op while a job exists; otherwise publish the single-mode
     * configuration built from the inputs and start a job on it.
     */
    method StartSingle()
      requires Valid()
      modifies this
      ensures Valid() && InputsKept() && EditorKept()
      ensures old(job).Some? ==> job == old(job) && mode == old(mode)
      ensures old(job).None? ==> (job.Some? && fresh(job.value) && job.value.running &&
        mode == Single(Some(InputBounds()), ButtonOf(clickButtonLeft), minMs, maxMs,
                       if useFiniteClicks then Some(numClicks) else None))
    {
      if job.Some? {
        return;
      }
      mode := Single(Some(InputBounds()), ButtonOf(clickButtonLeft), minMs, maxMs,
                     if useFiniteClicks then Some(numClicks) else None);
      var j := new ClickJob.Spawn();
      job := Some(j);
    }

    /**
     * `start_sequence`: a no-op while a job exists or when there are no steps;
     * otherwise publish the step list and cycle count and start a job on them.
     */
    method StartSequence()
      requires Valid()
      modifies this
      ensures Valid() && InputsKept() && EditorKept()
      ensures old(job).Some? || seqSteps == [] ==> job == old(job) && mode == old(mode)
      ensures old(job).None? && seqSteps != [] ==>
        job.Some? && fresh(job.value) && job.value.running && mode == Sequence(seqSteps, seqCycles) && Usable(mode)
    {
      if job.Some? {
        return;
      }
      if seqSteps == [] {
        return;
      }
      mode := Sequence(seqSteps, seqCycles);
      var j := new ClickJob.Spawn();
      job := Some(j);
    }

    /** `stop`: clear the running job's flag and drop the job. Doing it again changes nothing. */
    method Stop()
      modifies this, if job.Some? then {job.value} else {}
      ensures job.None?
      ensures old(job).Some? ==> !old(job).value.running
      ensures InputsKept() && EditorKept() && unchanged(this`mode)
    {
      if job.Some? {
        job.value.Stop();
      }
      job := None;
    }

    /** `pause`: the same as `stop` in this variant. */
    method Pause()
      modifies this, if job.Some? then {job.value} else {}
      ensures job.None?
      ensures old(job).Some? ==> !old(job).value.running
      ensures InputsKept() && EditorKept() && unchanged(this`mode)
    {
      if job.Some? {
        job.value.Stop();
      }
      job := None;
    }

    /* ------------------------- Displays and picker ------------------------- */

    /**
     * `refresh_monitors`, with the fresh monitor list passed in: a chosen monitor
     * that no longer exists falls back to "all displays".
     */
    method RefreshMonitors(displays: seq<Monitor>)
      modifies this
      ensures monitors == displays
      ensures displayChoice.One? ==> displayChoice.index < |monitors|
      ensures displayChoice == (if old(displayChoice).One? && old(displayChoice).index >= |displays| then All else old(displayChoice))
      ensures unchanged(this`dragStart, this`dragEnd, this`boundsInputs, this`clickButtonLeft, this`minMs,
                        this`maxMs, this`useFiniteClicks, this`numClicks)
      ensures EditorKept() && unchanged(this`job, this`mode)
    {
      monitors := displays;
      if displayChoice.One? && displayChoice.index >= |monitors| {
        displayChoice := All;
      }
    }

    /**
     * `set_bounds_from_drag`, after the drag corners were converted to pixels:
     * store the normalised drag region, shifted by `origin`, in the bounds inputs,
     * and in the shared configuration when it is in single mode.
     */
    method SetBoundsFromDrag(origin: Point)
      requires Valid()
      modifies this
      ensures Valid()
      ensures old(dragStart).Some? && old(dragEnd).Some? ==>
        var r := DragBounds(old(dragStart).value, old(dragEnd).value, origin);
        InputBounds() == r &&
        mode == (if old(mode).Single? then old(mode).(bounds := Some(r)) else old(mode))
      ensures old(dragStart).None? || old(dragEnd).None? ==> boundsInputs == old(boundsInputs) && mode == old(mode)
      ensures unchanged(this`monitors, this`displayChoice, this`dragStart, this`dragEnd, this`clickButtonLeft,
                        this`minMs, this`maxMs, this`useFiniteClicks, this`numClicks)
      ensures EditorKept() && unchanged(this`job)
    {
      if dragStart.Some? && dragEnd.Some? {
        var r := DragBounds(dragStart.value, dragEnd.value, origin);
        boundsInputs := [r.minX, r.maxX, r.minY, r.maxY];
        if mode.Single? {
          mode := mode.(bounds := Some(r));
        }
      }
    }

    /* ------------------------- Sequence editor ------------------------- */

    /**
     * `push_or_update_step_from_editor`: store the editor's step in place of the
     * selected one, or append it when nothing is selected (and propose the next
     * default name); the selection is cleared either way.
     */
    method PushOrUpdateStepFromEditor()
      requires Valid()
      modifies this`seqSteps, this`editName, this`editingStepIdx
      ensures Valid() && editingStepIdx.None?
      ensures old(editingStepIdx).Some? && old(editingStepIdx).value < |old(seqSteps)| ==>
        seqSteps == old(seqSteps)[old(editingStepIdx).value := old(EditorStep())] && editName == old(editName)
      ensures old(editingStepIdx).None? ==>
        seqSteps == old(seqSteps) + [old(EditorStep())] && editName == StepName(|seqSteps| + 1)
    {
      var step := EditorStep();
      var steps, name := seqSteps, editName;
      if editingStepIdx.Some? {
        if editingStepIdx.value < |steps| {
          steps := steps[editingStepIdx.value := step];
        }
      } else {
        steps := steps + [step];
        name := StepName(|steps| + 1);
      }
      seqSteps, editName, editingStepIdx := steps, name, None;
    }

    /**
     * `select_step_for_edit`: load step `idx` into the editor and select it; an
     * index past the end changes nothing. Saving right away stores the same step.
     */
    method SelectStepForEdit(idx: nat)
      requires Valid()
      modifies this`editingStepIdx, this`editName, this`editClicks, this`editMinMs, this`editMaxMs,
        this`editButtonLeft, this`editBoundsFromCurrent
      ensures Valid()
      ensures idx < |seqSteps| ==> editingStepIdx == Some(idx) && !editBoundsFromCurrent && EditorStep() == seqSteps[idx]
      ensures idx < |seqSteps| ==> editClicks == seqSteps[idx].clicks
      ensures idx >= |seqSteps| ==> EditorKept()
    {
      if idx < |seqSteps| {
        var s := seqSteps[idx];
        editingStepIdx, editName, editClicks, editMinMs, editMaxMs, editButtonLeft, editBoundsFromCurrent :=
          Some(idx), s.name, s.clicks, s.minMs, s.maxMs, s.button == Left, false;
      }
    }

    /** `move_step_up`: swap step `idx` with its predecessor; the selection follows its step. */
    method MoveStepUp(idx: nat)
      requires Valid()
      modifies this`seqSteps, this`editingStepIdx
      ensures Valid()
      ensures 0 < idx < |old(seqSteps)| ==>
        seqSteps == Swap(old(seqSteps), idx, idx - 1) &&
        editingStepIdx == SwapSelection(old(editingStepIdx), idx, idx - 1)
      ensures !(0 < idx < |old(seqSteps)|) ==> unchanged(this`seqSteps, this`editingStepIdx)
      ensures Reordered(old(seqSteps), old(editingStepIdx), seqSteps, editingStepIdx)
    {
      if 0 < idx < |seqSteps| {
        seqSteps, editingStepIdx := SwapSteps(seqSteps, editingStepIdx, idx, idx - 1);
      } else {
        Unmoved(seqSteps, editingStepIdx);
      }
    }

    /** `move_step_down`: swap step `idx` with its successor; the selection follows its step. */
    method MoveStepDown(idx: nat)
      requires Valid()
      modifies this`seqSteps, this`editingStepIdx
      ensures Valid()
      ensures idx + 1 < |old(seqSteps)| ==>
        seqSteps == Swap(old(seqSteps), idx, idx + 1) &&
        editingStepIdx == SwapSelection(old(editingStepIdx), idx, idx + 1)
      ensures idx + 1 >= |old(seqSteps)| ==> unchanged(this`seqSteps, this`editingStepIdx)
      ensures Reordered(old(seqSteps), old(editingStepIdx), seqSteps, editingStepIdx)
    {
      seqSteps, editingStepIdx := SwapSteps(seqSteps, editingStepIdx, idx, idx + 1);
    }

    /**
     * The `Action::Remove(i)` handler: remove step `i` (the list only offers
     * existing steps); a selection of `i` is cleared and a later one moves down.
     */
    method RemoveStep(i: nat)
      requires Valid() && i < |seqSteps|
      modifies this`seqSteps, this`editingStepIdx
      ensures Valid()
      ensures seqSteps == RemoveAt(old(seqSteps), i)
      ensures multiset(seqSteps) + multiset{old(seqSteps)[i]} == multiset(old(seqSteps))
      ensures editingStepIdx == RemoveSelection(old(editingStepIdx), i)
      ensures old(editingStepIdx) == Some(i) ==> editingStepIdx.None?
      ensures editingStepIdx.Some? ==> seqSteps[editingStepIdx.value] == old(seqSteps)[old(editingStepIdx).value]
    {
      RemoveStepFacts(seqSteps, i, editingStepIdx);
      seqSteps := RemoveAt(seqSteps, i);
      editingStepIdx := RemoveSelection(editingStepIdx, i);
    }
  }

  /** Every step clicks at least once. */
  predicate ClickEach(s: seq<SequenceStep>) {
    forall i :: 0 <= i < |s| ==> s[i].clicks >= 1
  }

  /**
   * `t` holds the steps of `s`, each of which clicks, and the selection `sel'`
   * denotes in `t` the step `sel` denoted in `s`.
   */
  predicate Reordered(s: seq<SequenceStep>, sel: Option<nat>, t: seq<SequenceStep>, sel': Option<nat>) {
    multiset(t) == multiset(s) && ClickEach(t) &&
    (sel'.Some? <==> sel.Some?) &&
    (sel'.Some? ==> sel.value < |s| && sel'.value < |t| && t[sel'.value] == s[sel.value])
  }

  /**
   * Trade steps `i` and `j` when both exist, the selection following its step;
   * otherwise leave list and selection as they are.
   */
  method SwapSteps(s: seq<SequenceStep>, sel: Option<nat>, i: nat, j: int) returns (t: seq<SequenceStep>, sel': Option<nat>)
    requires ClickEach(s) && (sel.Some? ==> sel.value < |s|)
    ensures i < |s| && 0 <= j < |s| ==> t == Swap(s, i, j) && sel' == SwapSelection(sel, i, j)
    ensures !(i < |s| && 0 <= j < |s|) ==> t == s && sel' == sel
    ensures Reordered(s, sel, t, sel')
  {
    if i < |s| && 0 <= j < |s| {
      SwapStepsFacts(s, i, j, sel);
      t, sel' := Swap(s, i, j), SwapSelection(sel, i, j);
    } else {
      Unmoved(s, sel);
      t, sel' := s, sel;
    }
  }

  /** Swapping two steps keeps the steps, their click counts and the selected step. */
  lemma SwapStepsFacts(s: seq<SequenceStep>, i: nat, j: nat, sel: Option<nat>)
    requires i < |s| && j < |s|
    requires ClickEach(s)
    requires sel.Some? ==> sel.value < |s|
    ensures Reordered(s, sel, Swap(s, i, j), SwapSelection(sel, i, j))
  {
    SwapPermutes(s, i, j);
    if sel.Some? {
      SwapKeepsSelection(s, i, j, sel);
    }
    KeepsClicks(s, Swap(s, i, j));
  }

  /** Leaving the steps alone reorders nothing. */
  lemma Unmoved(s: seq<SequenceStep>, sel: Option<nat>)
    requires ClickEach(s)
    requires sel.Some? ==> sel.value < |s|
    ensures Reordered(s, sel, s, sel)
  {
  }

  /** Removing a step keeps the other steps, their click counts and the selected step unless it was removed. */
  lemma RemoveStepFacts(s: seq<SequenceStep>, i: nat, sel: Option<nat>)
    requires i < |s|
    requires ClickEach(s)
    requires sel.Some? ==> sel.value < |s|
    ensures multiset(RemoveAt(s, i)) + multiset{s[i]} == multiset(s)
    ensures ClickEach(RemoveAt(s, i))
    ensures RemoveSelection(sel, i).None? <==> (sel.None? || sel.value == i)
    ensures RemoveSelection(sel, i).Some? ==>
      RemoveSelection(sel, i).value < |RemoveAt(s, i)| && RemoveAt(s, i)[RemoveSelection(sel, i).value] == s[sel.value]
  {
    RemovePermutes(s, i);
    if sel.Some? {
      RemoveKeepsSelection(s, i, sel);
    }
    KeepsClicks(s, RemoveAt(s, i));
  }

  /** Steps taken from a list whose steps all click at least once click at least once. */
  lemma KeepsClicks(s: seq<SequenceStep>, t: seq<SequenceStep>)
    requires ClickEach(s)
    requires multiset(t) <= multiset(s)
    ensures ClickEach(t)
  {
    forall i | 0 <= i < |t|
      ensures t[i].clicks >= 1
    {
      assert t[i] in multiset(t);
      var j :| 0 <= j < |s| && s[j] == t[i];
    }
  }
}
