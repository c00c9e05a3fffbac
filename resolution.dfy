/** What both plugin variants share: the outcomes a run can end in, and the
    last stages (follow the selected node's first reference, copy the page's
    first page number into a new marker). */
module Resolution {
  import opened Wrappers
  import opened DocumentModel

  /** How a run of the plugin ends. */
  datatype Outcome =
    | AlreadyAssigned             // a marker with an int value exists
    | NoChildren                  // the effective root has no children
    | NoTarget                    // no child of the searched type
    | FallbackFailed              // no preceding step has the fallback name
    | FallbackApplied(destination: nat)  // the workflow was sent back to that preceding step
    | NoLinkedPages               // the selected node references no page
    | NoPageNumber                // its first page has no page number
    | MarkerRejected              // the ruleset refused the new marker
    | Assigned(value: Option<string>)    // a marker with this value was appended
  {
    /** The `boolean` that `execute()` returns. */
    predicate Succeeded()
    {
      !(FallbackFailed? || FallbackApplied? || MarkerRejected?)
    }

    /** The run reached the "no title page" branch. */
    predicate TargetMissing()
    {
      NoTarget? || FallbackFailed? || FallbackApplied?
    }
  }

  /** The outcome of the assignment stages for the selected node. */
  function AssignFrom(node: DocStruct, markerAccepted: bool): (o: Outcome)
    ensures o.NoLinkedPages? || o.NoPageNumber? || o.MarkerRejected? || o.Assigned?
    ensures o.Succeeded() <==> !o.MarkerRejected?
    ensures o.NoLinkedPages? <==> node.refs == []
    ensures o.NoPageNumber? <==> node.refs != [] && FirstPageNumber(node.refs[0]).None?
    ensures o.MarkerRejected? <==> node.refs != [] && FirstPageNumber(node.refs[0]).Some? && !markerAccepted
  {
    if node.refs == [] then NoLinkedPages
    else
      match FirstPageNumber(node.refs[0])
      case None => NoPageNumber
      case Some(i) => if markerAccepted then Assigned(node.refs[0].metadata[i].value) else MarkerRejected
  }

  /** Follows the selected node's first reference and, when that page has a
      page number, appends a marker carrying the first one's value verbatim.
      `markerAccepted` stands for the ruleset's verdict on creating and
      adding the marker entry. */
  method ApplyAssignment(node: DocStruct, markerAccepted: bool, physical: PhysicalDocStruct)
    returns (outcome: Outcome)
    modifies physical
    ensures outcome == AssignFrom(node, markerAccepted)
    ensures physical.metadata == old(physical.metadata) + (if outcome.Assigned? then [Marker(outcome.value)] else [])
  {
    if node.refs == [] {
      return NoLinkedPages;
    }
    var page := node.refs[0];
    var pageNo := FirstPageNumber(page);
    if pageNo.None? {
      return NoPageNumber;
    }
    if !markerAccepted {
      return MarkerRejected;
    }
    var value := page.metadata[pageNo.value].value;
    physical.AddMetadata(Marker(value));
    return Assigned(value);
  }

  /** The assigned value is the first page number of the node's first
      referenced page, and it exists exactly when the node has a reference,
      that page has a page number and the marker is accepted. */
  lemma AssignFromValue(node: DocStruct, markerAccepted: bool)
    ensures AssignFrom(node, markerAccepted).Assigned? <==>
            node.refs != [] && markerAccepted &&
            exists i :: 0 <= i < |node.refs[0].metadata| && node.refs[0].metadata[i].typeName == PAGE_NO_NAME
    ensures AssignFrom(node, markerAccepted).Assigned? ==>
            exists i :: 0 <= i < |node.refs[0].metadata|
              && node.refs[0].metadata[i].typeName == PAGE_NO_NAME
              && (forall j :: 0 <= j < i ==> node.refs[0].metadata[j].typeName != PAGE_NO_NAME)
              && AssignFrom(node, markerAccepted).value == node.refs[0].metadata[i].value
  {
    if node.refs != [] {
      var r := FirstPageNumber(node.refs[0]);
      if r.Some? {
        assert node.refs[0].metadata[r.value].typeName == PAGE_NO_NAME;
      }
    }
  }
}
