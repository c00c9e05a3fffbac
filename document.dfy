/** The digital document as the plugin sees it: the physical structure's
    metadata list, which the plugin appends to, and the logical structure
    tree, whose nodes reference the pages that realise them. */
module DocumentModel {
  import opened Wrappers
  import opened Seqs
  import JavaInt

  /** Reserved metadata type names and the default structure type. */
  const TITLE_PAGE_NAME: string := "TitlePage"
  const PAGE_NO_NAME: string := "physPageNumber"
  const REPRESENTATIVE_NAME: string := "_representative"

  /** A metadata entry: its type's name and its value, which may be null. */
  datatype Metadata = Metadata(typeName: string, value: Option<string>)

  /** A page of the physical sequence, with its own metadata entries. */
  datatype Page = Page(metadata: seq<Metadata>)

  /** A node of the logical tree. `isAnchor` is the anchor flag of its
      structure type; `refs` are the pages its outgoing references point to,
      in reference order. */
  datatype DocStruct = DocStruct(typeName: string, isAnchor: bool,
                                 children: seq<DocStruct>, refs: seq<Page>)

  /** The physical structure, whose metadata list the plugin extends in place. */
  class PhysicalDocStruct {
    var metadata: seq<Metadata>

    constructor (metadata: seq<Metadata>)
      ensures this.metadata == metadata
    {
      this.metadata := metadata;
    }

    /** Appends one entry, leaving the existing ones as they were. */
    method AddMetadata(md: Metadata)
      modifies this
      ensures metadata == old(metadata) + [md]
    {
      metadata := metadata + [md];
    }
  }

  /** The marker entry that records the representative page. */
  function Marker(value: Option<string>): Metadata
  {
    Metadata(REPRESENTATIVE_NAME, value)
  }

  /** A marker whose value Java's `new Integer(...)` accepts. */
  predicate IsParsedMarker(md: Metadata)
  {
    md.typeName == REPRESENTATIVE_NAME && JavaInt.ParseInt(md.value).Some?
  }

  /** Some entry of the list is a marker with an int-parseable value. */
  predicate HasParsedMarker(mds: seq<Metadata>)
  {
    exists i :: 0 <= i < |mds| && IsParsedMarker(mds[i])
  }

  /** An anchor's content lives in its first child, so an anchor without
      children is not a document the plugin can work on. */
  predicate AnchorHasChild(root: DocStruct)
  {
    root.isAnchor ==> |root.children| > 0
  }

  /** What a run needs of its document: the anchor descent is reached only
      when no marker parses, so only then must an anchor have a child. */
  predicate Processable(mds: seq<Metadata>, root: DocStruct)
  {
    !HasParsedMarker(mds) ==> AnchorHasChild(root)
  }

  /** The node whose children are searched: the root, or for an anchor its
      first child; the descent is one level and never repeated. */
  function EffectiveRoot(root: DocStruct): DocStruct
    requires AnchorHasChild(root)
  {
    if root.isAnchor then root.children[0] else root
  }

  /** The type name of a logical node, of a metadata entry. */
  function StructTypeName(n: DocStruct): string { n.typeName }

  function MetadataTypeName(md: Metadata): string { md.typeName }

  /** The index of the first child of the given type, if any. */
  function FirstChildOfType(children: seq<DocStruct>, name: string): (r: Option<nat>)
    ensures r.Some? ==> r.value < |children| && children[r.value].typeName == name
    ensures r.Some? ==> forall j :: 0 <= j < r.value ==> children[j].typeName != name
    ensures r.None? <==> forall j :: 0 <= j < |children| ==> children[j].typeName != name
  {
    var names := Map(children, StructTypeName);
    var r := FirstIndexOf(names, name);
    assert r.Some? ==> forall j :: 0 <= j < r.value ==> names[..r.value][j] == names[j];
    assert r.None? ==> forall j :: 0 <= j < |children| ==> names[j] in names;
    r
  }

  /** The index of the first page-number entry of a page, if any. */
  function FirstPageNumber(page: Page): (r: Option<nat>)
    ensures r.Some? ==> r.value < |page.metadata| && page.metadata[r.value].typeName == PAGE_NO_NAME
    ensures r.Some? ==> forall j :: 0 <= j < r.value ==> page.metadata[j].typeName != PAGE_NO_NAME
    ensures r.None? <==> forall j :: 0 <= j < |page.metadata| ==> page.metadata[j].typeName != PAGE_NO_NAME
  {
    var names := Map(page.metadata, MetadataTypeName);
    var r := FirstIndexOf(names, PAGE_NO_NAME);
    assert r.Some? ==> forall j :: 0 <= j < r.value ==> names[..r.value][j] == names[j];
    assert r.None? ==> forall j :: 0 <= j < |page.metadata| ==> names[j] in names;
    r
  }

  /** The idempotency scan: walks the physical metadata and stops at the
      first marker whose value parses as an int; markers with a null or
      non-numeric value are passed over. */
  method ScanForMarker(mds: seq<Metadata>) returns (found: bool)
    ensures found <==> HasParsedMarker(mds)
  {
    var i := 0;
    while i < |mds|
      invariant 0 <= i <= |mds|
      invariant forall j :: 0 <= j < i ==> !IsParsedMarker(mds[j])
    {
      if mds[i].typeName == REPRESENTATIVE_NAME {
        if JavaInt.ParseInt(mds[i].value).Some? {
          return true;
        }
      }
      i := i + 1;
    }
    return false;
  }

  /** The structure search: the first direct child whose type name equals
      `name` exactly, in child order. */
  method FindChildOfType(children: seq<DocStruct>, name: string) returns (r: Option<nat>)
    ensures r == FirstChildOfType(children, name)
  {
    var i := 0;
    while i < |children|
      invariant 0 <= i <= |children|
      invariant forall j :: 0 <= j < i ==> children[j].typeName != name
    {
      if children[i].typeName == name {
        FirstIndexOfUnique(Map(children, StructTypeName), name, i);
        return Some(i);
      }
      i := i + 1;
    }
    return None;
  }

  /** Removing a marker that does not parse leaves the outcome of the
      idempotency scan as it was. */
  lemma UnparsedMarkerIgnored(mds: seq<Metadata>, k: nat)
    requires k < |mds| && !IsParsedMarker(mds[k])
    ensures HasParsedMarker(mds) <==> HasParsedMarker(mds[..k] + mds[k + 1..])
  {
    var rest := mds[..k] + mds[k + 1..];
    assert forall i :: 0 <= i < k ==> rest[i] == mds[i];
    assert forall i :: k <= i < |rest| ==> rest[i] == mds[i + 1];
    if HasParsedMarker(mds) {
      var i :| 0 <= i < |mds| && IsParsedMarker(mds[i]);
      var j := if i < k then i else i - 1;
      assert IsParsedMarker(rest[j]);
    }
    if HasParsedMarker(rest) {
      var i :| 0 <= i < |rest| && IsParsedMarker(rest[i]);
      var j := if i < k then i else i + 1;
      assert IsParsedMarker(mds[j]);
    }
  }

  /** Appending a marker makes the scan succeed exactly when the marker's
      value parses or a parseable marker was already there. */
  lemma AppendedMarker(mds: seq<Metadata>, value: Option<string>)
    ensures HasParsedMarker(mds + [Marker(value)]) <==>
            HasParsedMarker(mds) || JavaInt.ParseInt(value).Some?
  {
    var after := mds + [Marker(value)];
    if HasParsedMarker(mds) {
      var i :| 0 <= i < |mds| && IsParsedMarker(mds[i]);
      assert after[i] == mds[i];
    }
    if HasParsedMarker(after) {
      var i :| 0 <= i < |after| && IsParsedMarker(after[i]);
      if i < |mds| {
        assert mds[i] == after[i];
      }
    }
    if JavaInt.ParseInt(value).Some? {
      assert IsParsedMarker(after[|mds|]);
    }
  }
}
