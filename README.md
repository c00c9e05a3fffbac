# Representative page creation: a Dafny model

This project models the Goobi workflow step plugin "RepresentativeCreation".
The plugin picks the representative (thumbnail) page of a digitised document
and records it in the document's metadata. It comes in two variants that
share one structure:

- `plugin/…/RepresentativeCreationPlugin.java` is the configurable variant.
  Its configuration gives the structure type to look for (default
  `TitlePage`), an optional error message and an optional fallback step name.
- `goobi-plugin-step-representative-creation/…/RepresentativeCreationPlugin.java`
  is the fixed variant. It always looks for `TitlePage` and has no fallback.

A run (`execute()`) goes through five stages:

1. **Idempotency scan.** The physical structure's metadata is scanned for a
   `_representative` entry whose value Java's `new Integer(...)` accepts. If
   one is found, the run succeeds and changes nothing.
2. **Anchor descent.** If the logical root is an anchor, the root is replaced
   by its first child. This happens once, never repeatedly.
3. **Structure search.** The run looks for the first direct child of that
   root whose type name equals the searched type exactly.
4. **Assignment.** The run follows the match's first page reference and copies
   that page's first `physPageNumber` value, unparsed, into a new
   `_representative` entry appended to the physical metadata.
5. **Not found (configurable variant only).** The run saves an ERROR log entry
   if an error message is set. If a fallback step name is set and a preceding
   step has that title, the run sends the workflow back. The current step,
   and each preceding step down to the nearest one with that title, is locked,
   marked for manual correction and saved. That destination step is then
   opened and saved a second time. If no preceding step has the title, the
   run fails and no step changes.

Module layout:

- `Wrappers`: the Option type.
- `JavaInt`: `Integer.parseInt`, with `Integer.toString` as a reference.
- `Seqs`: the first-match search and an element-wise projection.
- `DocumentModel`: metadata, pages, the logical tree, the physical structure
  class, the marker scan and the child search.
- `Workflow`: the `Step` class, the `Store` class, and the rollback trace with
  its lemmas. `Store` records every save call as a ghost trace of events, in
  call order.
- `Resolution`: the outcomes and the assignment stage, shared by both variants.
- `ConfigurablePlugin` and `TitlePagePlugin`: the two variants.
- `Scenarios`: concrete runs.

Each variant has a pure function `Resolve` that says which outcome a run ends
in. Each variant also has an imperative `Execute` that is proved to end in that
outcome, and that states the new metadata list, and in the configurable
variant also the new step states and the new save trace. The corresponding `Outcome.Succeeded()` is the `boolean` that
`execute()` returns.

Three behaviours of the code worth noting:

- In the configurable variant, an effective root without children is not an
  early success. It falls into the not-found branch, which may log an entry and
  roll the workflow back (`plugin/…:113`, `:122`). Only the fixed variant
  succeeds at once in that case (`goobi-plugin-step-…:96-98`).
- When an error message is set but no fallback step is, the run saves the log
  entry and then succeeds.
- The marker value is copied from the page number verbatim. It may therefore
  fail to parse as an int. A later run then appends another marker, or fails
  if the ruleset refuses it (`SecondRun`).

## Model

| member | source | states |
|---|---|---|
| `Seqs.FirstIndexOf` | plugin/src/de/intranda/goobi/plugins/RepresentativeCreationPlugin.java:143-148 | the result is None exactly when the value does not occur; otherwise it is an index holding the value with no earlier occurrence (the for-each loop with `break`) |
| `Seqs.FirstIndexOfUnique` | plugin/src/de/intranda/goobi/plugins/RepresentativeCreationPlugin.java:114-119 | any index of the value with no earlier occurrence is the one the first-match search returns |
| `JavaInt.ParseInt` | plugin/src/de/intranda/goobi/plugins/RepresentativeCreationPlugin.java:96 | a parsed value is in the 32-bit signed range and comes from an optional sign followed by one or more digits; null, the empty string and a lone sign do not parse; `ParseDigits`, `ParsePlus` and `ParseMinus` give the value |
| `JavaInt.ParseToString` | goobi-plugin-step-representative-creation/src/de/intranda/goobi/plugins/RepresentativeCreationPlugin.java:81 | every int, written as Java prints it, parses back to itself |
| `JavaInt.ParseRejectsNonDigits` | goobi-plugin-step-representative-creation/src/de/intranda/goobi/plugins/RepresentativeCreationPlugin.java:81-88 | a value with a non-digit after the optional sign throws, so its marker is passed over |
| `JavaInt.ParseDigits` | plugin/src/de/intranda/goobi/plugins/RepresentativeCreationPlugin.java:96 | unsigned digits parse to their decimal value when it is at most 2147483647, and are rejected otherwise |
| `JavaInt.ParsePlus` | goobi-plugin-step-representative-creation/src/de/intranda/goobi/plugins/RepresentativeCreationPlugin.java:81 | a leading `+` is accepted and does not change the result |
| `JavaInt.ParseMinus` | plugin/src/de/intranda/goobi/plugins/RepresentativeCreationPlugin.java:96 | a leading `-` negates the digits' value, accepted down to -2147483648 and rejected below it |
| `JavaInt.LeadingZero` | goobi-plugin-step-representative-creation/src/de/intranda/goobi/plugins/RepresentativeCreationPlugin.java:81 | leading zeros do not change the value of the digits |
| `DocumentModel.PhysicalDocStruct.AddMetadata` | plugin/src/de/intranda/goobi/plugins/RepresentativeCreationPlugin.java:192 | the entry is appended and the existing entries are unchanged |
| `DocumentModel.Marker` | plugin/src/de/intranda/goobi/plugins/RepresentativeCreationPlugin.java:188-191 | definition: a new `_representative` entry carrying the given value unchanged, as `new Metadata(rep)` followed by `setValue(pageNo.getValue())` |
| `DocumentModel.IsParsedMarker` | plugin/src/de/intranda/goobi/plugins/RepresentativeCreationPlugin.java:94-100 | definition: an entry of type `_representative` whose value `new Integer` accepts; the scan and its lemmas are stated in its terms |
| `DocumentModel.HasParsedMarker` | plugin/src/de/intranda/goobi/plugins/RepresentativeCreationPlugin.java:92-106 | definition: some entry of the physical metadata is such a marker; `ScanForMarker` is proved to decide it |
| `DocumentModel.EffectiveRoot` | plugin/src/de/intranda/goobi/plugins/RepresentativeCreationPlugin.java:108-110 | definition: the root, or for an anchor its first child, one level only; `AnchorDescendsOneLevel` states the consequence for a run |
| `DocumentModel.Processable` | plugin/src/de/intranda/goobi/plugins/RepresentativeCreationPlugin.java:92-110 | definition: an anchor must have a child only when no marker parses, since the scan returns before the `get(0)` of the descent; `Resolve` and `Execute` require only this |
| `DocumentModel.FirstChildOfType` | plugin/src/de/intranda/goobi/plugins/RepresentativeCreationPlugin.java:112-120 | the index found is a direct child of the searched type with none before it; None means no direct child has that type |
| `DocumentModel.FirstPageNumber` | plugin/src/de/intranda/goobi/plugins/RepresentativeCreationPlugin.java:183-184 | the index found is the page's first `physPageNumber` entry; None means the page has none |
| `DocumentModel.ScanForMarker` | plugin/src/de/intranda/goobi/plugins/RepresentativeCreationPlugin.java:92-106 | the scan reports a marker exactly when some `_representative` entry has an int-parseable value |
| `DocumentModel.FindChildOfType` | goobi-plugin-step-representative-creation/src/de/intranda/goobi/plugins/RepresentativeCreationPlugin.java:99-105 | the loop finds the first direct child of the searched type, in child order |
| `DocumentModel.UnparsedMarkerIgnored` | plugin/src/de/intranda/goobi/plugins/RepresentativeCreationPlugin.java:94-103 | removing a marker whose value does not parse (or is null) does not change whether the scan succeeds |
| `DocumentModel.AppendedMarker` | goobi-plugin-step-representative-creation/src/de/intranda/goobi/plugins/RepresentativeCreationPlugin.java:128-130 | after a marker is appended, the scan succeeds exactly when it did before or the new value parses |
| `Workflow.Store.SaveLogEntry` | plugin/src/de/intranda/goobi/plugins/RepresentativeCreationPlugin.java:135 | the saved entry is appended to the trace |
| `Workflow.Store.SaveStep` | plugin/src/de/intranda/goobi/plugins/RepresentativeCreationPlugin.java:157 | the step, with its state at the time of the call, is appended to the trace |
| `Workflow.PrecedingSteps` | plugin/src/de/intranda/goobi/plugins/RepresentativeCreationPlugin.java:140-141 | definition of what the step query returns: steps placed before the current one, by descending position, each object once; `SendBack` and `RollbackPersistsFinalStates` require it |
| `Workflow.FindStepTitled` | plugin/src/de/intranda/goobi/plugins/RepresentativeCreationPlugin.java:142-148 | the destination is the first preceding step with the given title; None means no preceding step has it |
| `Workflow.RolledBack` | plugin/src/de/intranda/goobi/plugins/RepresentativeCreationPlugin.java:159-162 | a rolled-back step is locked, edited manually, marked as a correction and has no end date |
| `Workflow.Reopened` | plugin/src/de/intranda/goobi/plugins/RepresentativeCreationPlugin.java:165 | the destination ends open, edited manually, marked as a correction, with no end date |
| `Workflow.LockAndSave` | plugin/src/de/intranda/goobi/plugins/RepresentativeCreationPlugin.java:153-157 | the step's new state is the rolled-back old state, and that state is what gets saved |
| `Resolution.Outcome.Succeeded` | plugin/src/de/intranda/goobi/plugins/RepresentativeCreationPlugin.java:100-206 | definition of the `boolean` that `execute()` returns: false exactly for a failed or applied fallback (:151, :167) and for the caught ruleset exception (:203); true at every other return (:100, :173, :179, :206) |
| `Resolution.Outcome.TargetMissing` | plugin/src/de/intranda/goobi/plugins/RepresentativeCreationPlugin.java:122-174 | definition: the run reached the `titlePage == null` branch, which ends with no fallback configured, a failed fallback or an applied one |
| `Workflow.AfterRollback` | plugin/src/de/intranda/goobi/plugins/RepresentativeCreationPlugin.java:158-168 | definition of a preceding step's final state: rolled back before the destination, reopened at it, untouched after it; `SendBack` ends in these states |
| `Workflow.LockedSaves` | plugin/src/de/intranda/goobi/plugins/RepresentativeCreationPlugin.java:158-163 | definition of the loop's saves over the first k preceding steps, each rolled back; `LockedSavesAt` gives its elements |
| `Workflow.RollbackEvents` | plugin/src/de/intranda/goobi/plugins/RepresentativeCreationPlugin.java:153-168 | definition of the fallback's save trace: the current step, then the locked preceding steps, then the reopened destination; `SendBack` is proved to produce it |
| `Workflow.RollbackEventsOrder` | plugin/src/de/intranda/goobi/plugins/RepresentativeCreationPlugin.java:153-168 | the rollback makes d+3 saves: the current step locked, the preceding steps from nearest to the destination locked, then the destination opened |
| `Workflow.RollbackPersistsFinalStates` | plugin/src/de/intranda/goobi/plugins/RepresentativeCreationPlugin.java:153-168 | for every step, the last state saved is its final in-memory state; steps after the destination are never saved |
| `Resolution.AssignFrom` | plugin/src/de/intranda/goobi/plugins/RepresentativeCreationPlugin.java:176-194 | no references gives the no-pages success; a first page without `physPageNumber` gives the no-page-number success; the marker is refused exactly when there is a page number and the ruleset refuses; only the refusal is a failure |
| `Resolution.ApplyAssignment` | goobi-plugin-step-representative-creation/src/de/intranda/goobi/plugins/RepresentativeCreationPlugin.java:114-132 | the stage ends as `AssignFrom` says; the physical metadata gains exactly the new marker on assignment and is unchanged otherwise |
| `Resolution.AssignFromValue` | plugin/src/de/intranda/goobi/plugins/RepresentativeCreationPlugin.java:181-191 | an assignment happens exactly when the node has a reference, its first page has a page number and the marker is accepted; the value is that page's first page number, verbatim |
| `ConfigurablePlugin.Resolve` | plugin/src/de/intranda/goobi/plugins/RepresentativeCreationPlugin.java:92-206 | this variant never ends with the no-children success; a rollback destination is one of the preceding steps |
| `ConfigurablePlugin.MissingTarget` | plugin/src/de/intranda/goobi/plugins/RepresentativeCreationPlugin.java:139-173 | the not-found outcomes stay inside the not-found branch; the destination indexes the preceding steps |
| `ConfigurablePlugin.Setting` | plugin/src/de/intranda/goobi/plugins/RepresentativeCreationPlugin.java:82-83 | definition: `getString(key, null)` is the configured value, or null when the key is absent |
| `ConfigurablePlugin.ConfigFrom` | plugin/src/de/intranda/goobi/plugins/RepresentativeCreationPlugin.java:80-83 | definition: the three keys with their defaults; `DefaultConfig` states the defaults |
| `ConfigurablePlugin.ErrorEntries` | plugin/src/de/intranda/goobi/plugins/RepresentativeCreationPlugin.java:127-135 | definition: one ERROR entry with the configured message and the process id when a message is set, and none otherwise |
| `ConfigurablePlugin.ErrorLog` | plugin/src/de/intranda/goobi/plugins/RepresentativeCreationPlugin.java:122-138 | definition: the not-found branch saves those entries, and no other outcome saves a log entry; `Execute` states them as the head of the trace |
| `ConfigurablePlugin.Execute` | plugin/src/de/intranda/goobi/plugins/RepresentativeCreationPlugin.java:78-207 | the run ends as `Resolve` says and returns `Succeeded()`; the metadata gains a marker only on assignment; the trace gains the error entry (if any) followed by the rollback saves (if any); the step states are rolled back only when the fallback applies |
| `ConfigurablePlugin.HandleMissingTarget` | plugin/src/de/intranda/goobi/plugins/RepresentativeCreationPlugin.java:122-173 | the error entry is saved first, whatever follows; the outcome is `MissingTarget`; no step changes unless a destination exists |
| `ConfigurablePlugin.SendBack` | plugin/src/de/intranda/goobi/plugins/RepresentativeCreationPlugin.java:153-169 | the current step is rolled back; the preceding steps before the destination are rolled back, the destination is reopened and later ones are untouched; the saves follow `RollbackEvents` |
| `ConfigurablePlugin.LockDownTo` | plugin/src/de/intranda/goobi/plugins/RepresentativeCreationPlugin.java:158-164 | every preceding step up to and including the first one with the name is locked and saved, in order; later ones are untouched; that first one is returned |
| `ConfigurablePlugin.DefaultConfig` | plugin/src/de/intranda/goobi/plugins/RepresentativeCreationPlugin.java:80-83 | with no keys set, the type searched for is `TitlePage` and neither an error message nor a step name is set |
| `ConfigurablePlugin.AlreadyAssignedIff` | plugin/src/de/intranda/goobi/plugins/RepresentativeCreationPlugin.java:92-106 | the run ends as already assigned exactly when a marker with an int value exists |
| `ConfigurablePlugin.UnparsedMarkerSkipped` | plugin/src/de/intranda/goobi/plugins/RepresentativeCreationPlugin.java:94-103 | dropping a marker with a null or non-int value leaves the whole outcome unchanged, and the document stays processable after the drop |
| `ConfigurablePlugin.NoParsedMarkerAsAbsent` | plugin/src/de/intranda/goobi/plugins/RepresentativeCreationPlugin.java:92-106 | when no marker parses, the outcome is the one for a document with no physical metadata |
| `ConfigurablePlugin.AnchorDescendsOneLevel` | plugin/src/de/intranda/goobi/plugins/RepresentativeCreationPlugin.java:108-110 | a run on an anchor is a run on its first child taken as a plain root, even if that child is itself an anchor |
| `ConfigurablePlugin.SelectsFirstMatchingChild` | plugin/src/de/intranda/goobi/plugins/RepresentativeCreationPlugin.java:112-120 | the node used is the first direct child with the configured type name |
| `ConfigurablePlugin.MissingTargetOutcomes` | plugin/src/de/intranda/goobi/plugins/RepresentativeCreationPlugin.java:122-173 | with no matching child (or none at all): success if no step name is set; failure if no preceding step has it; otherwise a rollback to the nearest preceding step with it |
| `ConfigurablePlugin.FailsOnlyOnFallbackOrRejection` | plugin/src/de/intranda/goobi/plugins/RepresentativeCreationPlugin.java:150-173 | `execute()` returns false exactly when the not-found branch runs with a step name set, or the marker is refused |
| `ConfigurablePlugin.AssignedValueOrigin` | plugin/src/de/intranda/goobi/plugins/RepresentativeCreationPlugin.java:176-194 | an assigned value is the first `physPageNumber` value of the first page referenced by the first matching child |
| `ConfigurablePlugin.SecondRun` | plugin/src/de/intranda/goobi/plugins/RepresentativeCreationPlugin.java:92-106 | re-running on the extended metadata, with its own ruleset verdict, is a no-op if the copied value parses as an int; otherwise it appends the same marker again, or fails if the ruleset refuses it |
| `TitlePagePlugin.Resolve` | goobi-plugin-step-representative-creation/src/de/intranda/goobi/plugins/RepresentativeCreationPlugin.java:77-144 | this variant never ends in a fallback outcome |
| `TitlePagePlugin.Execute` | goobi-plugin-step-representative-creation/src/de/intranda/goobi/plugins/RepresentativeCreationPlugin.java:68-145 | the run ends as `Resolve` says and returns `Succeeded()`; the metadata gains a marker only on assignment |
| `TitlePagePlugin.AlreadyAssignedIff` | goobi-plugin-step-representative-creation/src/de/intranda/goobi/plugins/RepresentativeCreationPlugin.java:77-91 | the run ends as already assigned exactly when a marker with an int value exists |
| `TitlePagePlugin.UnparsedMarkerSkipped` | goobi-plugin-step-representative-creation/src/de/intranda/goobi/plugins/RepresentativeCreationPlugin.java:79-88 | dropping a marker with a null or non-int value leaves the outcome unchanged, and the document stays processable after the drop |
| `TitlePagePlugin.AnchorDescendsOneLevel` | goobi-plugin-step-representative-creation/src/de/intranda/goobi/plugins/RepresentativeCreationPlugin.java:93-95 | a run on an anchor is a run on its first child taken as a plain root |
| `TitlePagePlugin.NoChildrenIff` | goobi-plugin-step-representative-creation/src/de/intranda/goobi/plugins/RepresentativeCreationPlugin.java:96-98 | the run ends with the no-children success exactly when no marker parses and the effective root has no children |
| `TitlePagePlugin.NoTitlePage` | goobi-plugin-step-representative-creation/src/de/intranda/goobi/plugins/RepresentativeCreationPlugin.java:107-112 | children but no `TitlePage` among them: the run ends with the not-found success |
| `TitlePagePlugin.SelectsFirstTitlePage` | goobi-plugin-step-representative-creation/src/de/intranda/goobi/plugins/RepresentativeCreationPlugin.java:99-105 | the node used is the first direct child of type `TitlePage` |
| `TitlePagePlugin.FailsOnlyOnRejection` | goobi-plugin-step-representative-creation/src/de/intranda/goobi/plugins/RepresentativeCreationPlugin.java:138-144 | the only `false` of this variant is a refused marker |
| `TitlePagePlugin.AgreesWithUnconfigured` | goobi-plugin-step-representative-creation/src/de/intranda/goobi/plugins/RepresentativeCreationPlugin.java:96-112 | if the effective root has children, both variants agree when the configurable one has no configuration; a childless root is an early success here and a plain not-found there |
| `TitlePagePlugin.SecondRun` | goobi-plugin-step-representative-creation/src/de/intranda/goobi/plugins/RepresentativeCreationPlugin.java:128-130 | re-running on the extended metadata, with its own ruleset verdict, is a no-op if the copied value parses as an int; otherwise it appends the same marker again, or fails if the ruleset refuses it |
| `TitlePagePlugin.IntPageNumberIsFinal` | goobi-plugin-step-representative-creation/src/de/intranda/goobi/plugins/RepresentativeCreationPlugin.java:77-91 | a page number written as Java prints an int makes the first assignment final, whatever the ruleset decides on the second run |
| `Scenarios.ExistingMarkerKept` | goobi-plugin-step-representative-creation/src/de/intranda/goobi/plugins/RepresentativeCreationPlugin.java:81-85 | a marker with value `7` makes the run a no-op |
| `Scenarios.ChildlessAnchorWithMarker` | goobi-plugin-step-representative-creation/src/de/intranda/goobi/plugins/RepresentativeCreationPlugin.java:77-95 | an anchor without children whose metadata has marker `7` is accepted and resolves to the no-op success, because the scan returns before the descent |
| `Scenarios.NonNumericMarkerIgnored` | goobi-plugin-step-representative-creation/src/de/intranda/goobi/plugins/RepresentativeCreationPlugin.java:86-88 | a marker with value `abc` is passed over, and the title page's page number `3` is assigned |
| `Scenarios.SignedAndPaddedMarkersKept` | goobi-plugin-step-representative-creation/src/de/intranda/goobi/plugins/RepresentativeCreationPlugin.java:81-85 | markers `+7`, `007` and `-0` each make the run a no-op |
| `Scenarios.OutOfRangeMarkerIgnored` | goobi-plugin-step-representative-creation/src/de/intranda/goobi/plugins/RepresentativeCreationPlugin.java:81-88 | a marker `2147483648` does not fit an int, so it is passed over and the title page's page number `3` is assigned |
| `Scenarios.FallbackResolves` | plugin/src/de/intranda/goobi/plugins/RepresentativeCreationPlugin.java:139-152 | with steps S3, S2, S1 before the current step and step name S2, the destination is the second preceding step |
| `Scenarios.FallbackScenario` | plugin/src/de/intranda/goobi/plugins/RepresentativeCreationPlugin.java:153-169 | a run over steps S4 (current), S3, S2 and S1 with fallback S2 returns false with the fallback to S2; asserts in the body, not the contract, check that S4 and S3 end locked, S2 open, S1 unchanged, and that the error entry is saved first |

## Left out

- Reading and writing the metadata file (`readMetadataFile`, `writeMetadataFile`) is left out: the document is an input, and the changed physical metadata is the output. The file is also written when nothing was appended, which only matters for I/O.
- Faults from reading, writing, swapping, the ruleset preferences and the database are left out. Both variants catch `ReadException`, `PreferencesException`, `WriteException`, `IOException`, `SwapException` and `DAOException`, and turn each into `false`. Only the fixed variant catches `InterruptedException` as well. Only `MetadataTypeNotAllowedException` is modelled, as the `markerAccepted` parameter, because that exception decides whether the marker is appended.
- Loading the configuration (`ConfigPlugins.getPluginConfig`) is left out: the settings are a map from key to string, and `ConfigFrom` reads the three keys with their defaults.
- Metadata-type lookups (`prefs.getMetadataTypeByName`) are assumed to succeed. `getAllMetadataByType` is modelled as selecting the entries whose type name is `physPageNumber`.
- The database query for the preceding steps is replaced by an input sequence. `PrecedingSteps` requires it to hold each step once, in descending position, with every position below the current step's.
- Step and log persistence is a ghost trace of save calls, not a database. The log entry's creation date is not modelled.
- `setCorrectionStep()` is modelled as setting a boolean.
- Debug and trace logging are left out.
- An anchor root with no children is excluded by a precondition (`Processable`) only when no marker parses. At that point Java throws an uncaught index exception. With a parsed marker, such a document resolves to the no-op success (`Scenarios.ChildlessAnchorWithMarker`). The lemmas about the anchor descent, the child search, the assignment and a second run still require every anchor to have a child, parsed marker or not.
- A null metadata, child or reference list is modelled as an empty sequence.
- A step's title and position are modelled as constants, because `execute()` never changes them.
- Pages are values inside the references of the logical nodes. A page shared by several nodes is therefore a copy, not one object; the plugin only reads pages, so nothing depends on this.
- `JavaInt.ParseInt`: accepts only the ASCII digits `0`-`9`. Java's parser also accepts other Unicode decimal digits.
- The plugin boilerplate (`initialize`, `getType`, `getTitle`, `getDescription`, `cancel`, `finish`, `validate`, `getStep`, `getPluginGuiType`, `getPagePath`) is left out.
- `ConfigurablePlugin.SendBack`: the source walks the preceding steps and returns from inside the loop when it meets the destination. The model walks them in `LockDownTo` up to the destination, then opens and saves the destination. The calls are the same, in the same order.
