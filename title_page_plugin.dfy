/** The fixed variant of the representative-creation step plugin: it always
    searches for a title page, and every run that finds nothing to assign
    succeeds without touching the workflow. */
module TitlePagePlugin {
  import opened Wrappers
  import opened Seqs
  import opened DocumentModel
  import opened Resolution
  import JavaInt
  import ConfigurablePlugin

  /** Which outcome a run ends in, given the physical metadata, the logical
      root and whether the ruleset accepts a new marker. */
  function Resolve(mds: seq<Metadata>, logical: DocStruct, markerAccepted: bool): (o: Outcome)
    requires Processable(mds, logical)
    ensures !o.FallbackFailed? && !o.FallbackApplied?
  {
    if HasParsedMarker(mds) then AlreadyAssigned
    else
      var children := EffectiveRoot(logical).children;
      if children == [] then NoChildren
      else
        match FirstChildOfType(children, TITLE_PAGE_NAME)
        case None => NoTarget
        case Some(k) => AssignFrom(children[k], markerAccepted)
  }

  /** One run of the step: the idempotency scan, the one-level anchor
      descent, an early success when the effective root has no children,
      the title-page search and the marker assignment. */
  method Execute(physical: PhysicalDocStruct, logical: DocStruct, markerAccepted: bool)
    returns (ok: bool, outcome: Outcome)
    requires Processable(physical.metadata, logical)
    modifies physical
    ensures outcome == Resolve(old(physical.metadata), logical, markerAccepted)
    ensures ok == outcome.Succeeded()
    ensures physical.metadata == old(physical.metadata) + (if outcome.Assigned? then [Marker(outcome.value)] else [])
  {
    var found := ScanForMarker(physical.metadata);
    if found {
      return true, AlreadyAssigned;
    }

    var root := logical;
    if root.isAnchor {
      root := root.children[0];
    }
    if root.children == [] {
      return true, NoChildren;
    }

    var titlePage := FindChildOfType(root.children, TITLE_PAGE_NAME);
    if titlePage.None? {
      return true, NoTarget;
    }
    outcome := ApplyAssignment(root.children[titlePage.value], markerAccepted, physical);
    return outcome.Succeeded(), outcome;
  }

  /** The run is a no-op success exactly when a marker with an int value
      is already there. */
  lemma AlreadyAssignedIff(mds: seq<Metadata>, logical: DocStruct, markerAccepted: bool)
    requires Processable(mds, logical)
    ensures Resolve(mds, logical, markerAccepted) == AlreadyAssigned <==> HasParsedMarker(mds)
  {
  }

  /** A marker whose value is null or not an int is passed over. */
  lemma UnparsedMarkerSkipped(mds: seq<Metadata>, k: nat, logical: DocStruct, markerAccepted: bool)
    requires Processable(mds, logical)
    requires k < |mds| && !IsParsedMarker(mds[k])
    ensures Processable(mds[..k] + mds[k + 1..], logical)
    ensures Resolve(mds, logical, markerAccepted) == Resolve(mds[..k] + mds[k + 1..], logical, markerAccepted)
  {
    UnparsedMarkerIgnored(mds, k);
  }

  /** An anchor is replaced by its first child, once. */
  lemma AnchorDescendsOneLevel(mds: seq<Metadata>, logical: DocStruct, markerAccepted: bool)
    requires logical.isAnchor && |logical.children| > 0
    ensures Resolve(mds, logical, markerAccepted)
            == Resolve(mds, logical.children[0].(isAnchor := false), markerAccepted)
  {
  }

  /** An effective root without children ends the run with success and,
      unlike the configurable variant, never reaches the not-found branch. */
  lemma NoChildrenIff(mds: seq<Metadata>, logical: DocStruct, markerAccepted: bool)
    requires AnchorHasChild(logical)
    ensures Resolve(mds, logical, markerAccepted) == NoChildren
            <==> !HasParsedMarker(mds) && EffectiveRoot(logical).children == []
  {
  }

  /** Children but no title page among them: success, with nothing to do. */
  lemma NoTitlePage(mds: seq<Metadata>, logical: DocStruct, markerAccepted: bool)
    requires AnchorHasChild(logical) && !HasParsedMarker(mds)
    requires EffectiveRoot(logical).children != []
    requires forall j :: 0 <= j < |EffectiveRoot(logical).children| ==>
               EffectiveRoot(logical).children[j].typeName != TITLE_PAGE_NAME
    ensures Resolve(mds, logical, markerAccepted) == NoTarget
  {
  }

  /** The node used is the first direct child that is a title page. */
  lemma SelectsFirstTitlePage(mds: seq<Metadata>, logical: DocStruct, markerAccepted: bool, k: nat)
    requires AnchorHasChild(logical) && !HasParsedMarker(mds)
    requires k < |EffectiveRoot(logical).children|
    requires EffectiveRoot(logical).children[k].typeName == TITLE_PAGE_NAME
    requires forall j :: 0 <= j < k ==> EffectiveRoot(logical).children[j].typeName != TITLE_PAGE_NAME
    ensures Resolve(mds, logical, markerAccepted) == AssignFrom(EffectiveRoot(logical).children[k], markerAccepted)
  {
    FirstIndexOfUnique(Map(EffectiveRoot(logical).children, StructTypeName), TITLE_PAGE_NAME, k);
  }

  /** The only failure of this variant is a refused marker. */
  lemma FailsOnlyOnRejection(mds: seq<Metadata>, logical: DocStruct, markerAccepted: bool)
    requires Processable(mds, logical)
    ensures !Resolve(mds, logical, markerAccepted).Succeeded()
            <==> Resolve(mds, logical, markerAccepted) == MarkerRejected
  {
  }

  /** The two variants agree whenever the effective root has children and
      the configurable one runs without configuration; they differ only on
      a root without children, which this one accepts at once and the other
      sends to its not-found branch. */
  lemma AgreesWithUnconfigured(mds: seq<Metadata>, logical: DocStruct,
                               previousTitles: seq<string>, markerAccepted: bool)
    requires AnchorHasChild(logical)
    ensures var other := ConfigurablePlugin.Resolve(ConfigurablePlugin.ConfigFrom(map[]), mds, logical,
                                                    previousTitles, markerAccepted);
      && (EffectiveRoot(logical).children != [] ==> Resolve(mds, logical, markerAccepted) == other)
      && (EffectiveRoot(logical).children == [] && !HasParsedMarker(mds) ==>
            Resolve(mds, logical, markerAccepted) == NoChildren && other == NoTarget)
  {
    ConfigurablePlugin.DefaultConfig();
  }

  /** A second run over the metadata the first run produced, with its own
      verdict of the ruleset: when the copied page number parses as an int
      the run is a no-op; when it does not, another marker with the same
      value is appended, or the run fails if the ruleset now refuses it. */
  lemma SecondRun(mds: seq<Metadata>, logical: DocStruct, markerAccepted: bool, secondAccepted: bool)
    requires AnchorHasChild(logical)
    requires Resolve(mds, logical, markerAccepted).Assigned?
    ensures var v := Resolve(mds, logical, markerAccepted).value;
      Resolve(mds + [Marker(v)], logical, secondAccepted)
      == if JavaInt.ParseInt(v).Some? then AlreadyAssigned
         else if secondAccepted then Assigned(v) else MarkerRejected
  {
    AppendedMarker(mds, Resolve(mds, logical, markerAccepted).value);
  }

  /** A page number written the way Java prints an int makes the first
      assignment final, whatever the ruleset says the second time. */
  lemma IntPageNumberIsFinal(mds: seq<Metadata>, logical: DocStruct, markerAccepted: bool,
                             secondAccepted: bool, n: int)
    requires AnchorHasChild(logical) && JavaInt.InRange(n)
    requires Resolve(mds, logical, markerAccepted) == Assigned(Some(JavaInt.ToString(n)))
    ensures Resolve(mds + [Marker(Some(JavaInt.ToString(n)))], logical, secondAccepted) == AlreadyAssigned
  {
    JavaInt.ParseToString(n);
    SecondRun(mds, logical, markerAccepted, secondAccepted);
  }
}
