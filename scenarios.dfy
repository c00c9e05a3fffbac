/** Concrete runs that the contracts above decide: an existing int marker,
    markers with a sign, leading zeros or an out-of-range value, a
    non-numeric marker, a childless anchor with a marker, a title page
    assignment, and a rollback over four workflow steps. */
module Scenarios {
  import opened Wrappers
  import Seqs
  import opened DocumentModel
  import opened Workflow
  import opened Resolution
  import JavaInt
  import TitlePagePlugin
  import ConfigurablePlugin

  /** A monograph whose only child is a title page on a page numbered 3. */
  function Monograph(): DocStruct
  {
    DocStruct("Monograph", false,
              [DocStruct(TITLE_PAGE_NAME, false, [],
                         [Page([Metadata("logicalPageNumber", Some("i")), Metadata(PAGE_NO_NAME, Some("3"))])])],
              [])
  }

  /** A marker with value 7 makes the run a no-op. */
  lemma ExistingMarkerKept()
    ensures TitlePagePlugin.Resolve([Marker(Some("7"))], Monograph(), true) == AlreadyAssigned
  {
    assert JavaInt.ParseInt(Some("7")) == Some(7);
    assert IsParsedMarker([Marker(Some("7"))][0]);
  }

  /** A marker with value "abc" is ignored, and the title page's number is
      assigned. */
  lemma NonNumericMarkerIgnored()
    ensures TitlePagePlugin.Resolve([Marker(Some("abc"))], Monograph(), true) == Assigned(Some("3"))
  {
    JavaInt.ParseRejectsNonDigits("abc", 0);
    var page := Page([Metadata("logicalPageNumber", Some("i")), Metadata(PAGE_NO_NAME, Some("3"))]);
    assert page.metadata[0].typeName != PAGE_NO_NAME;
    Seqs.FirstIndexOfUnique(Seqs.Map(page.metadata, MetadataTypeName), PAGE_NO_NAME, 1);
    TitlePagePlugin.SelectsFirstTitlePage([Marker(Some("abc"))], Monograph(), true, 0);
  }

  /** Markers with a plus sign, with leading zeros, or a negative zero
      count as existing: each makes the run a no-op. */
  lemma SignedAndPaddedMarkersKept()
    ensures TitlePagePlugin.Resolve([Marker(Some("+7"))], Monograph(), true) == AlreadyAssigned
    ensures TitlePagePlugin.Resolve([Marker(Some("007"))], Monograph(), true) == AlreadyAssigned
    ensures TitlePagePlugin.Resolve([Marker(Some("-0"))], Monograph(), true) == AlreadyAssigned
  {
    JavaInt.ParseDigits("7");
    JavaInt.ParsePlus("7");
    assert "+7" == "+" + "7";
    assert IsParsedMarker([Marker(Some("+7"))][0]);
    JavaInt.LeadingZero("7");
    assert "07" == "0" + "7";
    JavaInt.LeadingZero("07");
    assert "007" == "0" + "07";
    JavaInt.ParseDigits("007");
    assert IsParsedMarker([Marker(Some("007"))][0]);
    JavaInt.ParseMinus("0");
    assert "-0" == "-" + "0";
    assert IsParsedMarker([Marker(Some("-0"))][0]);
  }

  /** A marker one past the largest int does not parse, so it is passed
      over and the title page's number is assigned. */
  lemma OutOfRangeMarkerIgnored()
    ensures TitlePagePlugin.Resolve([Marker(Some("2147483648"))], Monograph(), true) == Assigned(Some("3"))
  {
    JavaInt.ParseDigits("2147483648");
    // DigitsValue peels the last digit; name each prefix so it unfolds ten times.
    assert "21"[..1] == "2";
    assert "214"[..2] == "21";
    assert "2147"[..3] == "214";
    assert "21474"[..4] == "2147";
    assert "214748"[..5] == "21474";
    assert "2147483"[..6] == "214748";
    assert "21474836"[..7] == "2147483";
    assert "214748364"[..8] == "21474836";
    assert "2147483648"[..9] == "214748364";
    assert JavaInt.DigitsValue("2147483648") == 2147483648;
    assert !IsParsedMarker([Marker(Some("2147483648"))][0]);
    var page := Page([Metadata("logicalPageNumber", Some("i")), Metadata(PAGE_NO_NAME, Some("3"))]);
    assert page.metadata[0].typeName != PAGE_NO_NAME;
    Seqs.FirstIndexOfUnique(Seqs.Map(page.metadata, MetadataTypeName), PAGE_NO_NAME, 1);
    TitlePagePlugin.SelectsFirstTitlePage([Marker(Some("2147483648"))], Monograph(), true, 0);
  }

  /** An anchor without children is still a document the run accepts when
      a marker parses: the scan returns before the descent. */
  lemma ChildlessAnchorWithMarker()
    ensures Processable([Marker(Some("7"))], DocStruct("Periodical", true, [], []))
    ensures TitlePagePlugin.Resolve([Marker(Some("7"))], DocStruct("Periodical", true, [], []), true)
            == AlreadyAssigned
  {
    assert JavaInt.ParseInt(Some("7")) == Some(7);
    assert IsParsedMarker([Marker(Some("7"))][0]);
  }

  /** A monograph with a chapter and no title page. */
  function Untitled(): DocStruct
  {
    DocStruct("Monograph", false, [DocStruct("Chapter", false, [], [])], [])
  }

  /** An error message and the fallback step S2. */
  function FallbackSettings(): map<string, string>
  {
    map[ConfigurablePlugin.ERROR_MESSAGE_KEY := "no title page", ConfigurablePlugin.STEP_NAME_KEY := "S2"]
  }

  /** Without a title page the run falls back to S2, the second of the
      preceding steps S3, S2, S1. */
  lemma FallbackResolves()
    ensures ConfigurablePlugin.ConfigFrom(FallbackSettings())
            == ConfigurablePlugin.Config(TITLE_PAGE_NAME, Some("no title page"), Some("S2"))
    ensures ConfigurablePlugin.Resolve(ConfigurablePlugin.ConfigFrom(FallbackSettings()), [], Untitled(),
                                       ["S3", "S2", "S1"], true) == FallbackApplied(1)
  {
    var settings := FallbackSettings();
    assert ConfigurablePlugin.ELEMENT_KEY !in settings;
    assert Seqs.FirstIndexOf(["S3", "S2", "S1"], "S2") == Some(1);
  }

  /** No title page, an error message and a fallback step S2: the current
      step S4 and S3 are locked, S2 is reopened, S1 is left alone, and the
      run reports failure after logging one error entry. */
  method FallbackScenario() returns (ok: bool, outcome: Outcome)
    ensures !ok && outcome == FallbackApplied(1)
  {
    var done := StepState(Done, Automatic, false, Some(100));
    var s1 := new Step("S1", 1, done);
    var s2 := new Step("S2", 2, done);
    var s3 := new Step("S3", 3, done);
    var s4 := new Step("S4", 4, StepState(InWork, Automatic, false, None));
    var physical := new PhysicalDocStruct([]);
    var store := new Store();
    var logical := Untitled();
    var settings := FallbackSettings();
    FallbackResolves();
    assert PrecedingSteps(s4, [s3, s2, s1]);
    assert Titles([s3, s2, s1]) == ["S3", "S2", "S1"];
    ok, outcome := ConfigurablePlugin.Execute(settings, physical, logical, true, 42, s4, [s3, s2, s1], store);
    assert s4.status == Locked && s3.status == Locked && s2.status == Open && s1.State() == done;
    assert physical.metadata == [];
    assert store.events[0] == LogSaved(LogEntry(LogType.Error, "no title page", 42));
  }
}
