/** The configurable variant of the representative-creation step plugin:
    the structure type to search for, an error message and a fallback step
    name come from the plugin configuration, and a run that finds no
    matching structure can log an error and send the workflow back. */
module ConfigurablePlugin {
  import opened Wrappers
  import opened Seqs
  import opened DocumentModel
  import opened Workflow
  import opened Resolution
  import JavaInt

  const ELEMENT_KEY: string := "RepresentativeStructureElement"
  const ERROR_MESSAGE_KEY: string := "ErrorMessage"
  const STEP_NAME_KEY: string := "StepName"

  /** The plugin's settings once read from its configuration. */
  datatype Config = Config(element: string, errorMessage: Option<string>, stepName: Option<string>)

  /** `getString(key, default)` with a null default. */
  function Setting(settings: map<string, string>, key: string): Option<string>
  {
    if key in settings then Some(settings[key]) else None
  }

  /** Reads the three configuration keys; the structure type defaults to
      the title page, the other two to null. */
  function ConfigFrom(settings: map<string, string>): Config
  {
    Config(if ELEMENT_KEY in settings then settings[ELEMENT_KEY] else TITLE_PAGE_NAME,
           Setting(settings, ERROR_MESSAGE_KEY),
           Setting(settings, STEP_NAME_KEY))
  }

  /** Which outcome a run ends in, given the physical metadata, the logical
      root, the titles of the preceding steps (nearest first) and whether the
      ruleset accepts a new marker. */
  function Resolve(cfg: Config, mds: seq<Metadata>, logical: DocStruct,
                   previousTitles: seq<string>, markerAccepted: bool): (o: Outcome)
    requires Processable(mds, logical)
    ensures o.FallbackApplied? ==> o.destination < |previousTitles|
    ensures !o.NoChildren?
  {
    if HasParsedMarker(mds) then AlreadyAssigned
    else
      var children := EffectiveRoot(logical).children;
      match FirstChildOfType(children, cfg.element)
      case Some(k) => AssignFrom(children[k], markerAccepted)
      case None => MissingTarget(cfg, previousTitles)
  }

  /** The outcome of the not-found branch: success when no fallback step is
      configured, otherwise a failure, with the workflow sent back when a
      preceding step has the configured name. */
  function MissingTarget(cfg: Config, previousTitles: seq<string>): (o: Outcome)
    ensures o.TargetMissing()
    ensures o.FallbackApplied? ==> o.destination < |previousTitles|
  {
    match cfg.stepName
    case None => NoTarget
    case Some(name) =>
      match FirstIndexOf(previousTitles, name)
      case None => FallbackFailed
      case Some(d) => FallbackApplied(d)
  }

  /** The error entry saved by the not-found branch, if a message is set. */
  function ErrorEntries(cfg: Config, processId: int): seq<Event>
  {
    if cfg.errorMessage.Some?
    then [LogSaved(LogEntry(LogType.Error, cfg.errorMessage.value, processId))]
    else []
  }

  /** The log entries a run with this outcome saves. */
  function ErrorLog(cfg: Config, outcome: Outcome, processId: int): seq<Event>
  {
    if outcome.TargetMissing() then ErrorEntries(cfg, processId) else []
  }

  /** One run of the step: an idempotency scan over the physical metadata,
      a one-level anchor descent, the search for the configured structure
      type among the effective root's children, then either the marker
      assignment or the not-found branch with its optional log entry and
      rollback of the workflow. */
  method Execute(settings: map<string, string>, physical: PhysicalDocStruct, logical: DocStruct,
                 markerAccepted: bool, processId: int, step: Step, previousSteps: seq<Step>,
                 store: Store)
    returns (ok: bool, outcome: Outcome)
    requires Processable(physical.metadata, logical)
    requires PrecedingSteps(step, previousSteps)
    modifies physical, step, previousSteps, store
    ensures outcome == Resolve(ConfigFrom(settings), old(physical.metadata), logical,
                               Titles(previousSteps), markerAccepted)
    ensures ok == outcome.Succeeded()
    ensures physical.metadata == old(physical.metadata) + (if outcome.Assigned? then [Marker(outcome.value)] else [])
    ensures outcome.FallbackApplied? ==> outcome.destination < |previousSteps|
    ensures store.events == old(store.events) + ErrorLog(ConfigFrom(settings), outcome, processId)
              + (if outcome.FallbackApplied?
                 then RollbackEvents(step, old(step.State()), previousSteps,
                                     old(StatesOf(previousSteps)), outcome.destination)
                 else [])
    ensures step.State() == if outcome.FallbackApplied? then RolledBack(old(step.State())) else old(step.State())
    ensures forall i :: 0 <= i < |previousSteps| ==>
              previousSteps[i].State() == if outcome.FallbackApplied?
                                          then AfterRollback(old(previousSteps[i].State()), i, outcome.destination)
                                          else old(previousSteps[i].State())
  {
    var cfg := ConfigFrom(settings);
    var found := ScanForMarker(physical.metadata);
    if found {
      return true, AlreadyAssigned;
    }

    var root := logical;
    if root.isAnchor {
      root := root.children[0];
    }

    var titlePage := FindChildOfType(root.children, cfg.element);
    if titlePage.Some? {
      outcome := ApplyAssignment(root.children[titlePage.value], markerAccepted, physical);
      return outcome.Succeeded(), outcome;
    }

    outcome := HandleMissingTarget(cfg, processId, step, previousSteps, store);
    return outcome.Succeeded(), outcome;
  }

  /** The not-found branch: the error entry is saved when an error message
      is configured; then, when a fallback step name is configured, the
      destination is looked up among the preceding steps and, if present,
      the workflow is sent back to it. */
  method HandleMissingTarget(cfg: Config, processId: int, step: Step, previousSteps: seq<Step>, store: Store)
    returns (outcome: Outcome)
    requires PrecedingSteps(step, previousSteps)
    modifies step, previousSteps, store
    ensures outcome == MissingTarget(cfg, Titles(previousSteps))
    ensures store.events == old(store.events) + ErrorEntries(cfg, processId)
              + (if outcome.FallbackApplied?
                 then RollbackEvents(step, old(step.State()), previousSteps,
                                     old(StatesOf(previousSteps)), outcome.destination)
                 else [])
    ensures step.State() == if outcome.FallbackApplied? then RolledBack(old(step.State())) else old(step.State())
    ensures forall i :: 0 <= i < |previousSteps| ==>
              previousSteps[i].State() == if outcome.FallbackApplied?
                                          then AfterRollback(old(previousSteps[i].State()), i, outcome.destination)
                                          else old(previousSteps[i].State())
  {
    ghost var before := StatesOf(previousSteps);
    if cfg.errorMessage.Some? {
      store.SaveLogEntry(LogEntry(LogType.Error, cfg.errorMessage.value, processId));
    }
    assert store.events == old(store.events) + ErrorEntries(cfg, processId);
    if cfg.stepName.None? {
      return NoTarget;
    }
    var stepName := cfg.stepName.value;
    var destination := FindStepTitled(previousSteps, stepName);
    if destination.None? {
      return FallbackFailed;
    }
    assert StatesOf(previousSteps) == before;
    SendBack(step, previousSteps, stepName, destination.value, store);
    return FallbackApplied(destination.value);
  }

  /** The rollback of the not-found branch: the current step, then each
      preceding step in turn, nearest first, is locked for correction and
      saved; the first one titled `stepName` is the destination, which is
      then opened and saved once more, and the walk stops there. */
  method SendBack(step: Step, previousSteps: seq<Step>, stepName: string, ghost d: nat, store: Store)
    requires step !in previousSteps
    requires forall i, j :: 0 <= i < j < |previousSteps| ==> previousSteps[i] != previousSteps[j]
    requires d < |previousSteps| && previousSteps[d].title == stepName
    requires forall j :: 0 <= j < d ==> previousSteps[j].title != stepName
    modifies step, previousSteps, store
    ensures store.events == old(store.events)
              + RollbackEvents(step, old(step.State()), previousSteps, old(StatesOf(previousSteps)), d)
    ensures step.State() == RolledBack(old(step.State()))
    ensures forall i :: 0 <= i < |previousSteps| ==>
              previousSteps[i].State() == AfterRollback(old(previousSteps[i].State()), i, d)
  {
    ghost var before := StatesOf(previousSteps);
    LockAndSave(step, store);
    assert StatesOf(previousSteps) == before;
    var destination := LockDownTo(previousSteps, stepName, d, store);
    destination.status := Open;
    store.SaveStep(destination);
  }

  /** The walk over the preceding steps, nearest first: each is locked for
      correction and saved, up to and including the first one titled
      `stepName`, which is returned. */
  method LockDownTo(previousSteps: seq<Step>, stepName: string, ghost d: nat, store: Store)
    returns (destination: Step)
    requires forall i, j :: 0 <= i < j < |previousSteps| ==> previousSteps[i] != previousSteps[j]
    requires d < |previousSteps| && previousSteps[d].title == stepName
    requires forall j :: 0 <= j < d ==> previousSteps[j].title != stepName
    modifies previousSteps, store
    ensures destination == previousSteps[d]
    ensures forall j :: 0 <= j <= d ==> previousSteps[j].State() == RolledBack(old(previousSteps[j].State()))
    ensures forall j :: d < j < |previousSteps| ==> previousSteps[j].State() == old(previousSteps[j].State())
    ensures store.events == old(store.events) + LockedSaves(previousSteps, old(StatesOf(previousSteps)), d + 1)
  {
    ghost var before := StatesOf(previousSteps);
    var k := 0;
    destination := previousSteps[0];
    LockAndSave(destination, store);
    while destination.title != stepName
      invariant 0 <= k <= d && destination == previousSteps[k]
      invariant forall j :: 0 <= j <= k ==> previousSteps[j].State() == RolledBack(before[j])
      invariant forall j :: k < j < |previousSteps| ==> previousSteps[j].State() == before[j]
      invariant store.events == old(store.events) + LockedSaves(previousSteps, before, k + 1)
      decreases d - k
    {
      k := k + 1;
      destination := previousSteps[k];
      LockAndSave(destination, store);
    }
  }

  /** With no keys configured, the plugin searches for title pages and
      neither logs nor rolls back. */
  lemma DefaultConfig()
    ensures ConfigFrom(map[]) == Config(TITLE_PAGE_NAME, None, None)
  {
  }

  /** The run is a no-op success exactly when a marker with an int value
      is already there. */
  lemma AlreadyAssignedIff(cfg: Config, mds: seq<Metadata>, logical: DocStruct,
                           previousTitles: seq<string>, markerAccepted: bool)
    requires Processable(mds, logical)
    ensures Resolve(cfg, mds, logical, previousTitles, markerAccepted) == AlreadyAssigned
            <==> HasParsedMarker(mds)
  {
  }

  /** A marker whose value is null or not an int is passed over: dropping
      it changes nothing about the run. */
  lemma UnparsedMarkerSkipped(cfg: Config, mds: seq<Metadata>, k: nat, logical: DocStruct,
                              previousTitles: seq<string>, markerAccepted: bool)
    requires Processable(mds, logical)
    requires k < |mds| && !IsParsedMarker(mds[k])
    ensures Processable(mds[..k] + mds[k + 1..], logical)
    ensures Resolve(cfg, mds, logical, previousTitles, markerAccepted)
            == Resolve(cfg, mds[..k] + mds[k + 1..], logical, previousTitles, markerAccepted)
  {
    UnparsedMarkerIgnored(mds, k);
  }

  /** When no marker parses, the run goes on as if there were no metadata. */
  lemma NoParsedMarkerAsAbsent(cfg: Config, mds: seq<Metadata>, logical: DocStruct,
                               previousTitles: seq<string>, markerAccepted: bool)
    requires AnchorHasChild(logical)
    requires !HasParsedMarker(mds)
    ensures Resolve(cfg, mds, logical, previousTitles, markerAccepted)
            == Resolve(cfg, [], logical, previousTitles, markerAccepted)
  {
  }

  /** An anchor is replaced by its first child, once: the run over the
      anchor is the run over that child taken as a plain root, even when
      the child is itself an anchor. */
  lemma AnchorDescendsOneLevel(cfg: Config, mds: seq<Metadata>, logical: DocStruct,
                               previousTitles: seq<string>, markerAccepted: bool)
    requires logical.isAnchor && |logical.children| > 0
    ensures Resolve(cfg, mds, logical, previousTitles, markerAccepted)
            == Resolve(cfg, mds, logical.children[0].(isAnchor := false), previousTitles, markerAccepted)
  {
  }

  /** The node used is the first direct child of the effective root whose
      type name is the configured one. */
  lemma SelectsFirstMatchingChild(cfg: Config, mds: seq<Metadata>, logical: DocStruct,
                                  previousTitles: seq<string>, markerAccepted: bool, k: nat)
    requires AnchorHasChild(logical) && !HasParsedMarker(mds)
    requires k < |EffectiveRoot(logical).children|
    requires EffectiveRoot(logical).children[k].typeName == cfg.element
    requires forall j :: 0 <= j < k ==> EffectiveRoot(logical).children[j].typeName != cfg.element
    ensures Resolve(cfg, mds, logical, previousTitles, markerAccepted)
            == AssignFrom(EffectiveRoot(logical).children[k], markerAccepted)
  {
    var children := EffectiveRoot(logical).children;
    FirstIndexOfUnique(Map(children, StructTypeName), cfg.element, k);
  }

  /** Without a child of the configured type (in particular without any
      child), the outcome is decided by the fallback configuration alone:
      success when no step name is set, a failure when no preceding step
      has it, and otherwise a rollback to the nearest such step. */
  lemma MissingTargetOutcomes(cfg: Config, mds: seq<Metadata>, logical: DocStruct,
                              previousTitles: seq<string>, markerAccepted: bool)
    requires AnchorHasChild(logical) && !HasParsedMarker(mds)
    requires forall j :: 0 <= j < |EffectiveRoot(logical).children| ==>
               EffectiveRoot(logical).children[j].typeName != cfg.element
    ensures var o := Resolve(cfg, mds, logical, previousTitles, markerAccepted);
      && (cfg.stepName.None? ==> o == NoTarget)
      && (cfg.stepName.Some? && cfg.stepName.value !in previousTitles ==> o == FallbackFailed)
      && (cfg.stepName.Some? && cfg.stepName.value in previousTitles ==>
            o.FallbackApplied? && previousTitles[o.destination] == cfg.stepName.value
            && cfg.stepName.value !in previousTitles[..o.destination])
  {
  }

  /** `execute()` returns false exactly when the run is sent to the
      fallback with a step name configured, or the marker is refused. */
  lemma FailsOnlyOnFallbackOrRejection(cfg: Config, mds: seq<Metadata>, logical: DocStruct,
                                       previousTitles: seq<string>, markerAccepted: bool)
    requires Processable(mds, logical)
    ensures var o := Resolve(cfg, mds, logical, previousTitles, markerAccepted);
      !o.Succeeded() <==> (o.TargetMissing() && cfg.stepName.Some?) || o.MarkerRejected?
  {
  }

  /** Where an assigned value comes from: the first page-number entry of
      the first page referenced by the first child of the configured type. */
  lemma AssignedValueOrigin(cfg: Config, mds: seq<Metadata>, logical: DocStruct,
                            previousTitles: seq<string>, markerAccepted: bool)
    returns (k: nat, i: nat)
    requires AnchorHasChild(logical)
    requires Resolve(cfg, mds, logical, previousTitles, markerAccepted).Assigned?
    ensures !HasParsedMarker(mds) && markerAccepted
    ensures var children := EffectiveRoot(logical).children;
      && k < |children| && children[k].typeName == cfg.element
      && (forall j :: 0 <= j < k ==> children[j].typeName != cfg.element)
      && children[k].refs != []
      && i < |children[k].refs[0].metadata|
      && children[k].refs[0].metadata[i].typeName == PAGE_NO_NAME
      && (forall j :: 0 <= j < i ==> children[k].refs[0].metadata[j].typeName != PAGE_NO_NAME)
      && Resolve(cfg, mds, logical, previousTitles, markerAccepted).value
         == children[k].refs[0].metadata[i].value
  {
    var children := EffectiveRoot(logical).children;
    k := FirstChildOfType(children, cfg.element).value;
    i := FirstPageNumber(children[k].refs[0]).value;
  }

  /** A second run over the metadata the first run produced, with its own
      verdict of the ruleset: when the copied page number parses as an int
      the run is a no-op; when it does not, the run appends the same marker
      once more, or fails if the ruleset now refuses it. */
  lemma SecondRun(cfg: Config, mds: seq<Metadata>, logical: DocStruct,
                  previousTitles: seq<string>, markerAccepted: bool, secondAccepted: bool)
    requires AnchorHasChild(logical)
    requires Resolve(cfg, mds, logical, previousTitles, markerAccepted).Assigned?
    ensures var v := Resolve(cfg, mds, logical, previousTitles, markerAccepted).value;
      Resolve(cfg, mds + [Marker(v)], logical, previousTitles, secondAccepted)
      == if JavaInt.ParseInt(v).Some? then AlreadyAssigned
         else if secondAccepted then Assigned(v) else MarkerRejected
  {
    var v := Resolve(cfg, mds, logical, previousTitles, markerAccepted).value;
    AppendedMarker(mds, v);
  }
}
