/** The workflow side of a process: its steps, the step the plugin runs in,
    and the persistence calls (saving a step, saving a log entry), which are
    recorded as a trace of events in call order. */
module Workflow {
  import opened Wrappers
  import opened Seqs

  datatype StepStatus = Locked | Open | InWork | Done | Error | Deactivated

  datatype StepEditType = Unknown | ManualSingle | ManualMulti | Admin | Automatic

  /** The fields of a step that the fallback rewrites. */
  datatype StepState = StepState(status: StepStatus, editType: StepEditType,
                                 correction: bool, endDate: Option<int>)

  /** A workflow step. Its title and its position in the workflow are never
      changed here; its status fields are. */
  class Step {
    const title: string
    const order: int
    var status: StepStatus
    var editType: StepEditType
    var correction: bool
    var endDate: Option<int>

    constructor (title: string, order: int, state: StepState)
      ensures this.title == title && this.order == order && State() == state
    {
      this.title := title;
      this.order := order;
      status := state.status;
      editType := state.editType;
      correction := state.correction;
      endDate := state.endDate;
    }

    function State(): StepState
      reads this
    {
      StepState(status, editType, correction, endDate)
    }
  }

  datatype LogType = Debug | Info | Warn | Error | User | File

  /** A process log entry (its creation date is not modelled). */
  datatype LogEntry = LogEntry(kind: LogType, content: string, processId: int)

  /** One persistence call: a saved log entry, or a step saved with the
      state it had at the time of the call. */
  datatype Event = LogSaved(entry: LogEntry) | StepSaved(step: Step, state: StepState)

  /** The persistence layer, seen only through the calls made to it. */
  class Store {
    ghost var events: seq<Event>

    constructor ()
      ensures events == []
    {
      events := [];
    }

    method SaveLogEntry(entry: LogEntry)
      modifies this
      ensures events == old(events) + [LogSaved(entry)]
    {
      events := events + [LogSaved(entry)];
    }

    method SaveStep(step: Step)
      modifies this
      ensures events == old(events) + [StepSaved(step, step.State())]
    {
      events := events + [StepSaved(step, step.State())];
    }
  }

  /** What the query for the preceding steps returns: steps placed before the
      current one, by descending position, each object once. */
  predicate PrecedingSteps(current: Step, previous: seq<Step>)
  {
    && (forall i :: 0 <= i < |previous| ==> previous[i].order < current.order)
    && (forall i, j :: 0 <= i < j < |previous| ==> previous[i].order >= previous[j].order)
    && (forall i, j :: 0 <= i < j < |previous| ==> previous[i] != previous[j])
  }

  function StepTitle(s: Step): string { s.title }

  /** The titles of the steps, in the order given. */
  function Titles(steps: seq<Step>): seq<string>
  {
    Map(steps, StepTitle)
  }

  function StatesOf(steps: seq<Step>): (states: seq<StepState>)
    reads steps
    ensures |states| == |steps|
    ensures forall i :: 0 <= i < |steps| ==> states[i] == steps[i].State()
  {
    seq(|steps|, i reads steps requires 0 <= i < |steps| => steps[i].State())
  }

  /** The destination search: the first preceding step, in the order given,
      whose title equals `name`. */
  method FindStepTitled(steps: seq<Step>, name: string) returns (r: Option<nat>)
    ensures r == FirstIndexOf(Titles(steps), name)
    ensures r.Some? ==> r.value < |steps| && steps[r.value].title == name
    ensures r.Some? ==> forall j :: 0 <= j < r.value ==> steps[j].title != name
    ensures r.None? <==> forall j :: 0 <= j < |steps| ==> steps[j].title != name
  {
    var i := 0;
    while i < |steps|
      invariant 0 <= i <= |steps|
      invariant forall j :: 0 <= j < i ==> steps[j].title != name
    {
      if steps[i].title == name {
        FirstIndexOfUnique(Titles(steps), name, i);
        return Some(i);
      }
      i := i + 1;
    }
    assert name !in Titles(steps);
    return None;
  }

  /** A step sent back for correction: locked, to be edited manually, marked
      as a correction step, with its end date cleared. */
  function RolledBack(s: StepState): (r: StepState)
    ensures r.status == Locked && r.editType == ManualSingle && r.correction && r.endDate.None?
  {
    s.(status := Locked, editType := ManualSingle, correction := true, endDate := None)
  }

  /** Sets a step up for correction, field by field (manual editing,
      locked, a correction step, no end date), then saves it. */
  method LockAndSave(s: Step, store: Store)
    modifies s, store
    ensures s.State() == RolledBack(old(s.State()))
    ensures store.events == old(store.events) + [StepSaved(s, RolledBack(old(s.State())))]
  {
    s.editType := ManualSingle;
    s.status := Locked;
    s.correction := true;
    s.endDate := None;
    store.SaveStep(s);
  }

  /** The destination step: rolled back like the others, then opened. */
  function Reopened(s: StepState): (r: StepState)
    ensures r.status == Open && r.editType == ManualSingle && r.correction && r.endDate.None?
  {
    RolledBack(s).(status := Open)
  }

  /** The state of the `i`-th preceding step once the fallback has
      reopened the `d`-th: the ones before it rolled back, it reopened, the
      ones after it untouched. */
  function AfterRollback(s: StepState, i: nat, d: nat): StepState
  {
    if i < d then RolledBack(s) else if i == d then Reopened(s) else s
  }

  /** The saves of the first `k` preceding steps, each rolled back. */
  function LockedSaves(previous: seq<Step>, states: seq<StepState>, k: nat): (r: seq<Event>)
    requires k <= |previous| == |states|
  {
    if k == 0 then []
    else LockedSaves(previous, states, k - 1) + [StepSaved(previous[k - 1], RolledBack(states[k - 1]))]
  }

  /** The saves of the fallback, in call order: the current step rolled back,
      every preceding step down to and including the destination `d` rolled
      back, and the destination once more, opened. */
  function RollbackEvents(current: Step, currentState: StepState, previous: seq<Step>,
                          states: seq<StepState>, d: nat): seq<Event>
    requires d < |previous| == |states|
  {
    [StepSaved(current, RolledBack(currentState))]
    + LockedSaves(previous, states, d + 1)
    + [StepSaved(previous[d], Reopened(states[d]))]
  }

  /** The state last saved for `step` in a trace, if it was saved at all. */
  function LastSaved(events: seq<Event>, step: Step): Option<StepState>
  {
    if events == [] then None
    else
      var e := events[|events| - 1];
      if e.StepSaved? && e.step == step then Some(e.state)
      else LastSaved(events[..|events| - 1], step)
  }

  lemma {:induction false} LastSavedConcat(a: seq<Event>, b: seq<Event>, step: Step)
    ensures LastSaved(a + b, step) == if LastSaved(b, step).Some? then LastSaved(b, step) else LastSaved(a, step)
    decreases |b|
  {
    if b == [] {
      assert a + b == a;
    } else {
      var b' := b[..|b| - 1];
      assert (a + b)[..|a + b| - 1] == a + b';
      LastSavedConcat(a, b', step);
    }
  }

  lemma {:induction false} LockedSavesAt(previous: seq<Step>, states: seq<StepState>, k: nat)
    requires k <= |previous| == |states|
    ensures |LockedSaves(previous, states, k)| == k
    ensures forall i :: 0 <= i < k ==>
              LockedSaves(previous, states, k)[i] == StepSaved(previous[i], RolledBack(states[i]))
  {
    if k > 0 {
      LockedSavesAt(previous, states, k - 1);
    }
  }

  lemma {:induction false} LockedSavesLast(previous: seq<Step>, states: seq<StepState>, k: nat, step: Step)
    requires k <= |previous| == |states|
    requires forall i, j :: 0 <= i < j < |previous| ==> previous[i] != previous[j]
    ensures forall i :: 0 <= i < k && previous[i] == step ==>
              LastSaved(LockedSaves(previous, states, k), step) == Some(RolledBack(states[i]))
    ensures (forall i :: 0 <= i < k ==> previous[i] != step) ==>
              LastSaved(LockedSaves(previous, states, k), step) == None
  {
    if k > 0 {
      var prefix := LockedSaves(previous, states, k - 1);
      var last := [StepSaved(previous[k - 1], RolledBack(states[k - 1]))];
      LockedSavesLast(previous, states, k - 1, step);
      LastSavedConcat(prefix, last, step);
      assert last[..0] == [];
    }
  }

  /** The order of the fallback's saves: the current step first, then the
      preceding steps from the nearest down to the destination, all locked,
      and last the destination, opened. */
  lemma RollbackEventsOrder(current: Step, currentState: StepState, previous: seq<Step>,
                            states: seq<StepState>, d: nat)
    requires d < |previous| == |states|
    ensures var events := RollbackEvents(current, currentState, previous, states, d);
      && |events| == d + 3
      && events[0] == StepSaved(current, RolledBack(currentState))
      && (forall i :: 0 <= i <= d ==> events[i + 1] == StepSaved(previous[i], RolledBack(states[i])))
      && events[d + 2] == StepSaved(previous[d], Reopened(states[d]))
  {
    LockedSavesAt(previous, states, d + 1);
  }

  /** What the fallback saves agrees with what it leaves in memory: for the
      current step and each preceding step, the last state saved is its final
      state, and steps after the destination are never saved. */
  lemma RollbackPersistsFinalStates(current: Step, currentState: StepState, previous: seq<Step>,
                                    states: seq<StepState>, d: nat)
    requires d < |previous| == |states|
    requires PrecedingSteps(current, previous)
    ensures LastSaved(RollbackEvents(current, currentState, previous, states, d), current)
            == Some(RolledBack(currentState))
    ensures forall i :: 0 <= i < |previous| ==>
              LastSaved(RollbackEvents(current, currentState, previous, states, d), previous[i])
              == if i <= d then Some(AfterRollback(states[i], i, d)) else None
  {
    var first := [StepSaved(current, RolledBack(currentState))];
    var middle := LockedSaves(previous, states, d + 1);
    var last := [StepSaved(previous[d], Reopened(states[d]))];
    assert RollbackEvents(current, currentState, previous, states, d) == first + middle + last;
    assert first[..0] == [] && last[..0] == [];
    LockedSavesLast(previous, states, d + 1, current);
    LastSavedConcat(first, middle, current);
    LastSavedConcat(first + middle, last, current);
    forall i | 0 <= i < |previous|
      ensures LastSaved(first + middle + last, previous[i])
              == if i <= d then Some(AfterRollback(states[i], i, d)) else None
    {
      LockedSavesLast(previous, states, d + 1, previous[i]);
      LastSavedConcat(first, middle, previous[i]);
      LastSavedConcat(first + middle, last, previous[i]);
    }
  }
}
