/** The unit tests' requests to the character-positions service and the
    answers the model gives them. The long test text is written as four
    pieces; the mixed-case variant differs from it in the third piece only. */
module CharacterPositionsVectors {
  import opened Wrappers
  import opened Decimal
  import opened Contracts
  import opened Validation
  import opened ModelMapper
  import opened CharacterPositionsService
  import opened CharacterPositionsProperties
  import opened CharacterPositionsPieces
  import ValidationService
  import TextAnalysisValidator

  // The clauses the test texts are made of.
  const PollyFirst := "Polly put the kettle on, "
  const PollySecond := "polly put the kettle on, "
  const PollyThird := "polly put the kettle on "
  const PollyThirdMixedCase := "poLLy put the kettle on "
  const PollyEnd := "we'll all have tea"

  /** The text of the "Polly", "LL" and "Xx" tests,
      "Polly put the kettle on, polly put the kettle on, polly put the kettle on we'll all have tea",
      and its variant with "poLLy" as the third "polly". */
  const PollyText := PollyFirst + PollySecond + PollyThird + PollyEnd
  const PollyTextMixedCase := PollyFirst + PollySecond + PollyThirdMixedCase + PollyEnd

  function Request(text: string, subtext: string): (r: Option<TextAnalysisInput>) {
    Some(TextAnalysisInput(Some(text), Some(subtext)))
  }

  /** The marks of a response, in order. */
  function MarksOf(marks: seq<CharacterPosition>): (r: seq<string>) {
    seq(|marks|, k requires 0 <= k < |marks| => marks[k].mark)
  }

  /** A subtext with no space that occurs in none of the filler words of the
      test texts. */
  predicate FillerFree(subtext: string) {
    && 0 < |subtext|
    && (forall q :: 0 <= q < |subtext| ==> subtext[q] != ' ')
    && Positions("the kettle ", subtext) == []
    && Positions("on, ", subtext) == []
    && Positions("on ", subtext) == []
    && Positions("have tea", subtext) == []
  }

  /** A word ending in a space ends apart from a subtext without spaces. */
  lemma SpaceEndsApart(piece: string, subtext: string)
    requires 0 < |piece| && piece[|piece| - 1] == ' '
    requires forall q :: 0 <= q < |subtext| ==> subtext[q] != ' '
    ensures EndsApart(piece, subtext)
  {
  }

  /** In a clause "<start>the kettle <end>", a filler-free subtext occurs only
      where it occurs in the first word. */
  lemma KettleClause(start: string, end: string, subtext: string)
    requires FillerFree(subtext)
    requires 0 < |start| && start[|start| - 1] == ' '
    requires end == "on, " || end == "on "
    ensures Positions(start + "the kettle " + end, subtext) == Positions(start, subtext)
  {
    SpaceEndsApart(start, subtext);
    PositionsOfConcat(start, "the kettle ", subtext);
    assert (start + "the kettle ")[|start| + 10] == ' ';
    SpaceEndsApart(start + "the kettle ", subtext);
    PositionsOfConcat(start + "the kettle ", end, subtext);
  }

  /** The scans of the first two clauses of the test texts. */
  lemma LeadingClauseScans(subtext: string)
    requires FillerFree(subtext)
    ensures Positions(PollyFirst, subtext) == Positions("Polly put ", subtext)
    ensures Positions(PollySecond, subtext) == Positions("polly put ", subtext)
  {
    assert PollyFirst == "Polly put " + "the kettle " + "on, ";
    KettleClause("Polly put ", "on, ", subtext);
    assert PollySecond == "polly put " + "the kettle " + "on, ";
    KettleClause("polly put ", "on, ", subtext);
  }

  /** The scans of the third clause, in either spelling. */
  lemma ThirdClauseScans(subtext: string)
    requires FillerFree(subtext)
    ensures Positions(PollyThird, subtext) == Positions("polly put ", subtext)
    ensures Positions(PollyThirdMixedCase, subtext) == Positions("polly put ", subtext)
  {
    assert PollyThird == "polly put " + "the kettle " + "on ";
    KettleClause("polly put ", "on ", subtext);
    assert PollyThirdMixedCase == "poLLy put " + "the kettle " + "on ";
    KettleClause("poLLy put ", "on ", subtext);
    assert SameFolding("polly put ", "poLLy put ") && SameFolding(subtext, subtext);
    PositionsIgnoreCase("polly put ", subtext, "poLLy put ", subtext);
  }

  /** The scan of the last clause. */
  lemma EndClauseScan(subtext: string)
    requires FillerFree(subtext)
    ensures Positions(PollyEnd, subtext) == Positions("we'll all ", subtext)
  {
    assert PollyEnd == "we'll all " + "have tea";
    SpaceEndsApart("we'll all ", subtext);
    PositionsOfConcat("we'll all ", "have tea", subtext);
  }

  /** The scan of a test text is the scans of its clauses, each moved on by
      the length of the clauses before it. */
  lemma TextScan(third: string, subtext: string)
    requires third == PollyThird || third == PollyThirdMixedCase
    requires FillerFree(subtext)
    ensures Positions(PollyFirst + PollySecond + third + PollyEnd, subtext)
         == Positions(PollyFirst, subtext) + Shifted(Positions(PollySecond, subtext), 25)
            + Shifted(Positions(third, subtext), 50) + Shifted(Positions(PollyEnd, subtext), 74)
  {
    SpaceEndsApart(PollyFirst, subtext);
    PositionsOfConcat(PollyFirst, PollySecond, subtext);
    assert (PollyFirst + PollySecond)[49] == PollySecond[24] == ' ';
    SpaceEndsApart(PollyFirst + PollySecond, subtext);
    PositionsOfConcat(PollyFirst + PollySecond, third, subtext);
    assert (PollyFirst + PollySecond + third)[73] == third[23] == ' ';
    SpaceEndsApart(PollyFirst + PollySecond + third, subtext);
    PositionsOfConcat(PollyFirst + PollySecond + third, PollyEnd, subtext);
  }

  /** The two test texts hold a filler-free subtext at the same places: those
      of the first words of their clauses, moved on by the clauses before. */
  lemma TestTextScans(subtext: string)
    requires FillerFree(subtext)
    ensures Positions(PollyText, subtext) == Positions(PollyTextMixedCase, subtext)
    ensures Positions(PollyText, subtext)
         == Positions("Polly put ", subtext) + Shifted(Positions("polly put ", subtext), 25)
            + Shifted(Positions("polly put ", subtext), 50) + Shifted(Positions("we'll all ", subtext), 74)
  {
    LeadingClauseScans(subtext);
    ThirdClauseScans(subtext);
    EndClauseScan(subtext);
    TextScan(PollyThird, subtext);
    TextScan(PollyThirdMixedCase, subtext);
  }

  lemma OverlapScan0()
    ensures MatchesFrom("ababababa", "aba", 4, 2) == [3, 5, 7]
  {
    assert MatchesFrom("ababababa", "aba", 9, 1) == [];
    assert MatchesFrom("ababababa", "aba", 8, 0) == [];
    assert MatchesFrom("ababababa", "aba", 7, 0) == [];
    assert MatchesFrom("ababababa", "aba", 8, 2) == [7];
    assert MatchesFrom("ababababa", "aba", 7, 1) == [7];
    assert MatchesFrom("ababababa", "aba", 6, 0) == [7];
    assert MatchesFrom("ababababa", "aba", 5, 0) == [7];
    assert MatchesFrom("ababababa", "aba", 6, 2) == [5, 7];
    assert MatchesFrom("ababababa", "aba", 5, 1) == [5, 7];
    assert MatchesFrom("ababababa", "aba", 4, 0) == [5, 7];
    assert MatchesFrom("ababababa", "aba", 3, 0) == [5, 7];
  }

  /** The overlap test's scan, state by state: after each full match the text
      cursor moves back to one past the match's start. */
  lemma OverlapScan1()
    ensures MatchesFrom("ababababa", "aba", 0, 0) == [1, 3, 5, 7]
  {
    OverlapScan0();
    assert MatchesFrom("ababababa", "aba", 3, 1) == [3, 5, 7];
    assert MatchesFrom("ababababa", "aba", 2, 0) == [3, 5, 7];
    assert MatchesFrom("ababababa", "aba", 1, 0) == [3, 5, 7];
    assert MatchesFrom("ababababa", "aba", 2, 2) == [1, 3, 5, 7];
    assert MatchesFrom("ababababa", "aba", 1, 1) == [1, 3, 5, 7];
  }

  /** Appending strings that differ only in case to strings that differ only
      in case gives strings that differ only in case. */
  lemma SameFoldingAppend(a1: string, a2: string, b1: string, b2: string)
    requires SameFolding(a1, a2) && SameFolding(b1, b2)
    ensures SameFolding(a1 + b1, a2 + b2)
  {
    forall k | 0 <= k < |a1 + b1| ensures ToLower((a1 + b1)[k]) == ToLower((a2 + b2)[k]) {
      if k >= |a1| {
        assert (a1 + b1)[k] == b1[k - |a1|] && (a2 + b2)[k] == b2[k - |a1|];
      }
    }
  }

  lemma PollyTextsDifferOnlyInCase()
    ensures SameFolding(PollyText, PollyTextMixedCase)
  {
    var start := PollyFirst + PollySecond;
    assert SameFolding(start, start);
    assert SameFolding(PollyThird, PollyThirdMixedCase);
    SameFoldingAppend(start, start, PollyThird, PollyThirdMixedCase);
    assert SameFolding(PollyEnd, PollyEnd);
    SameFoldingAppend(start + PollyThird, start + PollyThirdMixedCase, PollyEnd, PollyEnd);
  }

  /** A valid verdict on a request with non-empty strings is answered with the
      marks of the scan. */
  lemma MockedResponse(errors: seq<ValidationFailure>, text: string, subtext: string)
    requires 0 < |text| && 0 < |subtext|
    ensures CharacterPositionsResponse(ValidationReport(true, errors), Request(text, subtext))
         == Success(PositionListModel(Positions(text, subtext)))
  {
  }

  /** "Polly" in the long text: found in the first word of each of the first
      three clauses, in both test texts. */
  lemma PollyScan()
    ensures Positions(PollyText, "Polly") == [1, 26, 51]
    ensures Positions(PollyTextMixedCase, "Polly") == [1, 26, 51]
  {
    assert FillerFree("Polly");
    TestTextScans("Polly");
    assert Positions("Polly put ", "Polly") == [1];
    assert Positions("polly put ", "Polly") == [1];
    assert Positions("we'll all ", "Polly") == [];
    assert Shifted([1], 25) == [26] && Shifted([1], 50) == [51] && Shifted([], 74) == [];
  }

  /** "Polly" in the long text, in the three spellings of the unit test. */
  lemma PollyPositions()
    ensures Positions(PollyText, "Polly") == [1, 26, 51]
    ensures Positions(PollyText, "polly") == [1, 26, 51]
    ensures Positions(PollyTextMixedCase, "pOlLy") == [1, 26, 51]
  {
    PollyScan();
    assert SameFolding(PollyText, PollyText) && SameFolding(PollyTextMixedCase, PollyTextMixedCase);
    assert SameFolding("Polly", "polly") && SameFolding("Polly", "pOlLy");
    PositionsIgnoreCase(PollyText, "Polly", PollyText, "polly");
    PositionsIgnoreCase(PollyTextMixedCase, "Polly", PollyTextMixedCase, "pOlLy");
  }


  /** "LL" in the long text: found in "Polly" in each of the first three
      clauses, and in "we'll" and "all" in the last, in both test texts. */
  lemma LLScan()
    ensures Positions(PollyText, "LL") == [3, 28, 53, 78, 82]
    ensures Positions(PollyTextMixedCase, "LL") == [3, 28, 53, 78, 82]
  {
    assert FillerFree("LL");
    TestTextScans("LL");
    assert Positions("Polly put ", "LL") == [3];
    assert Positions("polly put ", "LL") == [3];
    assert Positions("we'll all ", "LL") == [4, 8];
    assert Shifted([3], 25) == [28] && Shifted([3], 50) == [53] && Shifted([4, 8], 74) == [78, 82];
  }

  /** "LL" in the long text, in the four spellings of the unit test. */
  lemma LLPositions()
    ensures Positions(PollyText, "LL") == [3, 28, 53, 78, 82]
    ensures Positions(PollyText, "ll") == [3, 28, 53, 78, 82]
    ensures Positions(PollyTextMixedCase, "Ll") == [3, 28, 53, 78, 82]
    ensures Positions(PollyTextMixedCase, "lL") == [3, 28, 53, 78, 82]
  {
    LLScan();
    assert SameFolding(PollyText, PollyText) && SameFolding(PollyTextMixedCase, PollyTextMixedCase);
    assert SameFolding("LL", "ll") && SameFolding("LL", "Ll") && SameFolding("LL", "lL");
    PositionsIgnoreCase(PollyText, "LL", PollyText, "ll");
    PositionsIgnoreCase(PollyTextMixedCase, "LL", PollyTextMixedCase, "Ll");
    PositionsIgnoreCase(PollyTextMixedCase, "LL", PollyTextMixedCase, "lL");
  }


  /** "Xx" in the long text: found nowhere, in both test texts. */
  lemma XxScan()
    ensures Positions(PollyText, "Xx") == []
    ensures Positions(PollyTextMixedCase, "Xx") == []
  {
    assert FillerFree("Xx");
    TestTextScans("Xx");
    assert Positions("Polly put ", "Xx") == [];
    assert Positions("polly put ", "Xx") == [];
    assert Positions("we'll all ", "Xx") == [];
  }

  /** "Xx" in the long text, in the four spellings of the unit test. */
  lemma XxPositions()
    ensures Positions(PollyText, "Xx") == []
    ensures Positions(PollyText, "xX") == []
    ensures Positions(PollyTextMixedCase, "xx") == []
    ensures Positions(PollyTextMixedCase, "XX") == []
  {
    XxScan();
    assert SameFolding(PollyText, PollyText) && SameFolding(PollyTextMixedCase, PollyTextMixedCase);
    assert SameFolding("Xx", "xX") && SameFolding("Xx", "xx") && SameFolding("Xx", "XX");
    PositionsIgnoreCase(PollyText, "Xx", PollyText, "xX");
    PositionsIgnoreCase(PollyTextMixedCase, "Xx", PollyTextMixedCase, "xx");
    PositionsIgnoreCase(PollyTextMixedCase, "Xx", PollyTextMixedCase, "XX");
  }


  /** Overlapping occurrences, in the four spellings of the unit test. */
  lemma OverlapPositions()
    ensures Positions("ababababa", "aba") == [1, 3, 5, 7]
    ensures Positions("ababababa", "aBa") == [1, 3, 5, 7]
    ensures Positions("ababababa", "abA") == [1, 3, 5, 7]
    ensures Positions("ababababa", "ABa") == [1, 3, 5, 7]
  {
    OverlapScan1();
    assert SameFolding("ababababa", "ababababa");
    assert SameFolding("aba", "aBa") && SameFolding("aba", "abA") && SameFolding("aba", "ABa");
    PositionsIgnoreCase("ababababa", "aba", "ababababa", "aBa");
    PositionsIgnoreCase("ababababa", "aba", "ababababa", "abA");
    PositionsIgnoreCase("ababababa", "aba", "ababababa", "ABa");
  }

  /** The short requests of the first unit test. */
  lemma ShortPositions()
    ensures Positions("a", "a") == [1]
    ensures Positions("asdf", "df") == [3]
  {
  }

  /** The marks the "Polly" test looks for. */
  lemma PollyMarks()
    ensures MarksOf(PositionListModel([1, 26, 51])) == ["1", "26", "51"]
  {
    TwoDigitStrings();
    assert PositionListModel([1, 26, 51]) == PositionMarks([1, 26, 51]);
  }

  /** The marks the "LL" test looks for. */
  lemma LLMarks()
    ensures MarksOf(PositionListModel([3, 28, 53, 78, 82])) == ["3", "28", "53", "78", "82"]
  {
    TwoDigitStrings();
    assert PositionListModel([3, 28, 53, 78, 82]) == PositionMarks([3, 28, 53, 78, 82]);
  }

  /** The marks the overlap and the "Xx" tests look for. */
  lemma OverlapAndNoneMarks()
    ensures MarksOf(PositionListModel([1, 3, 5, 7])) == ["1", "3", "5", "7"]
    ensures MarksOf(PositionListModel([])) == ["N/A"]
  {
    assert PositionListModel([1, 3, 5, 7]) == PositionMarks([1, 3, 5, 7]);
  }

  lemma TwoDigitStrings()
    ensures IntToString(26) == "26" && IntToString(51) == "51" && IntToString(28) == "28"
    ensures IntToString(53) == "53" && IntToString(78) == "78" && IntToString(82) == "82"
  {
    assert NatToString(26) == NatToString(2) + "6";
    assert NatToString(51) == NatToString(5) + "1";
    assert NatToString(28) == NatToString(2) + "8";
    assert NatToString(53) == NatToString(5) + "3";
    assert NatToString(78) == NatToString(7) + "8";
    assert NatToString(82) == NatToString(8) + "2";
  }

  /** With the application's own validation service, `GetCharacterPositionsAsync`
      accepts the request and answers it with the marks of its scan, just as
      against the mocked valid verdict. */
  predicate AnsweredByScan(text: string, subtext: string)
    requires 0 < |subtext|
  {
    var request := Request(text, subtext);
    && ValidationService.Validate(request).isValid
    && CharacterPositionsResponse(ValidationService.Validate(request), request)
       == Success(PositionListModel(Positions(text, subtext)))
  }

  /** What `GetCharacterPositionsAsync` answers with the application's own
      validation service. */
  function ServiceAnswer(text: string, subtext: string): (r: Result<seq<CharacterPosition>, Fault>) {
    CharacterPositionsResponse(ValidationService.Validate(Request(text, subtext)), Request(text, subtext))
  }

  /** A request whose strings both start with a character other than white
      space, the subtext no longer than the text, is answered by its scan. */
  lemma ScanAnswersPlainRequest(text: string, subtext: string)
    requires 0 < |subtext| <= |text|
    requires !TextAnalysisValidator.IsWhiteSpace(text[0]) && !TextAnalysisValidator.IsWhiteSpace(subtext[0])
    ensures AnsweredByScan(text, subtext)
  {
    TextAnalysisValidator.MatchablePairIsValid(text, subtext);
  }

  /** The application's own validation service accepts the other two requests
      of the first unit test (its first, ("ababababa", "aba"), is also a
      request of the overlap test), so the unmocked service answers them as
      the mocked one does. */
  lemma ShortRequestsAnswered()
    ensures AnsweredByScan("a", "a")
    ensures AnsweredByScan("asdf", "df")
  {
    ScanAnswersPlainRequest("a", "a");
    ScanAnswersPlainRequest("asdf", "df");
  }

  /** The application's own validation service accepts the requests of
      the "Polly" test, so the unmocked service answers them as the mocked one does. */
  lemma PollyRequestsAnswered()
    ensures AnsweredByScan(PollyText, "Polly")
    ensures AnsweredByScan(PollyText, "polly")
    ensures AnsweredByScan(PollyTextMixedCase, "pOlLy")
  {
    ScanAnswersPlainRequest(PollyText, "Polly");
    ScanAnswersPlainRequest(PollyText, "polly");
    ScanAnswersPlainRequest(PollyTextMixedCase, "pOlLy");
  }

  /** The application's own validation service accepts the requests of
      the "LL" test, so the unmocked service answers them as the mocked one does. */
  lemma LLRequestsAnswered()
    ensures AnsweredByScan(PollyText, "LL")
    ensures AnsweredByScan(PollyText, "ll")
    ensures AnsweredByScan(PollyTextMixedCase, "Ll")
    ensures AnsweredByScan(PollyTextMixedCase, "lL")
  {
    ScanAnswersPlainRequest(PollyText, "LL");
    ScanAnswersPlainRequest(PollyText, "ll");
    ScanAnswersPlainRequest(PollyTextMixedCase, "Ll");
    ScanAnswersPlainRequest(PollyTextMixedCase, "lL");
  }

  /** The application's own validation service accepts the requests of the
      "Xx" test, and the unmocked service answers each with the single N/A
      mark, as the mocked one does. */
  lemma XxRequestsAnswered()
    ensures AnsweredByScan(PollyText, "Xx")
    ensures AnsweredByScan(PollyText, "xX")
    ensures AnsweredByScan(PollyTextMixedCase, "xx")
    ensures AnsweredByScan(PollyTextMixedCase, "XX")
    ensures ServiceAnswer(PollyText, "Xx") == Success([EmptyResult()])
    ensures ServiceAnswer(PollyText, "xX") == Success([EmptyResult()])
    ensures ServiceAnswer(PollyTextMixedCase, "xx") == Success([EmptyResult()])
    ensures ServiceAnswer(PollyTextMixedCase, "XX") == Success([EmptyResult()])
  {
    ScanAnswersPlainRequest(PollyText, "Xx");
    ScanAnswersPlainRequest(PollyText, "xX");
    ScanAnswersPlainRequest(PollyTextMixedCase, "xx");
    ScanAnswersPlainRequest(PollyTextMixedCase, "XX");
    XxPositions();
    PositionListModelShape([]);
  }

  /** The application's own validation service accepts the requests of
      the overlap test, so the unmocked service answers them as the mocked one does. */
  lemma OverlapRequestsAnswered()
    ensures AnsweredByScan("ababababa", "aba")
    ensures AnsweredByScan("ababababa", "aBa")
    ensures AnsweredByScan("ababababa", "abA")
    ensures AnsweredByScan("ababababa", "ABa")
  {
    ScanAnswersPlainRequest("ababababa", "aba");
    ScanAnswersPlainRequest("ababababa", "aBa");
    ScanAnswersPlainRequest("ababababa", "abA");
    ScanAnswersPlainRequest("ababababa", "ABa");
  }

  /** The scan does not find every occurrence: "aab" occurs in "aaab" at 0-based
      index 1, yet the scan reports nothing, because after the partial match
      "aa" breaks at the third character only the subtext cursor is reset. */
  lemma MissedOccurrence()
    ensures OccursAt("aaab", "aab", 1)
    ensures Positions("aaab", "aab") == []
    ensures CharacterPositionsResponse(ValidationReport(true, []), Request("aaab", "aab")) == Success([EmptyResult()])
  {
    assert Positions("aaab", "aab") == [];
    MockedResponse([], "aaab", "aab");
    PositionListModelShape([]);
  }
}
