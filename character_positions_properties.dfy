/** What the character-positions service promises for every input: the scan
    and the whole response ignore letter case, the sort the service applies
    to the scan's list changes nothing, and the response is decided by the
    validation verdict in the ways listed below. */
module CharacterPositionsProperties {
  import opened Wrappers
  import opened Decimal
  import opened Contracts
  import opened Validation
  import opened ModelMapper
  import opened CharacterPositionsService
  import ValidationService
  import TextAnalysisValidator

  /** Two strings of the same length that agree character by character once
      folded to lower case. */
  predicate SameFolding(a: string, b: string) {
    |a| == |b| && forall k :: 0 <= k < |a| ==> ToLower(a[k]) == ToLower(b[k])
  }

  /** From the same cursor state, texts and subtexts that differ only in case
      make the scan take the same steps and report the same positions. */
  lemma {:induction false} MatchesFromIgnoresCase(text1: string, subtext1: string,
                                                  text2: string, subtext2: string, i: nat, j: nat)
    requires 0 < |subtext1| && j < |subtext1| && j <= i <= |text1|
    requires SameFolding(text1, text2) && SameFolding(subtext1, subtext2)
    ensures MatchesFrom(text1, subtext1, i, j) == MatchesFrom(text2, subtext2, i, j)
    decreases |text1| - (i - j), |subtext1| - j
  {
    if i < |text1| {
      assert MatchCharacters(text1[i], subtext1[j], false) == MatchCharacters(text2[i], subtext2[j], false);
      if MatchCharacters(text1[i], subtext1[j], false) {
        if j + 1 == |subtext1| {
          MatchesFromIgnoresCase(text1, subtext1, text2, subtext2, i + 1 - |subtext1| + 1, 0);
        } else {
          MatchesFromIgnoresCase(text1, subtext1, text2, subtext2, i + 1, j + 1);
        }
      } else if j > 0 {
        MatchesFromIgnoresCase(text1, subtext1, text2, subtext2, i, 0);
      } else {
        MatchesFromIgnoresCase(text1, subtext1, text2, subtext2, i + 1, 0);
      }
    }
  }

  /** The scan is case-insensitive: changing the case of any letters of the
      text or the subtext leaves the positions unchanged. */
  lemma PositionsIgnoreCase(text1: string, subtext1: string, text2: string, subtext2: string)
    requires 0 < |subtext1|
    requires SameFolding(text1, text2) && SameFolding(subtext1, subtext2)
    ensures Positions(text1, subtext1) == Positions(text2, subtext2)
  {
    MatchesFromIgnoresCase(text1, subtext1, text2, subtext2, 0, 0);
  }

  /** Folding changes letters only, so a blank string stays blank. */
  lemma BlanknessIgnoresCase(a: string, b: string)
    requires SameFolding(a, b)
    ensures TextAnalysisValidator.IsNullOrWhiteSpace(a) == TextAnalysisValidator.IsNullOrWhiteSpace(b)
  {
    forall k | 0 <= k < |a|
      ensures TextAnalysisValidator.IsWhiteSpace(a[k]) == TextAnalysisValidator.IsWhiteSpace(b[k])
    {
      assert ToLower(a[k]) == ToLower(b[k]);
    }
  }

  /** The validation service gives the same verdict and the same failures for
      requests that differ only in the case of their letters. */
  lemma ValidationIgnoresCase(text1: string, subtext1: string, text2: string, subtext2: string)
    requires SameFolding(text1, text2) && SameFolding(subtext1, subtext2)
    ensures ValidationService.Validate(Some(TextAnalysisInput(Some(text1), Some(subtext1))))
         == ValidationService.Validate(Some(TextAnalysisInput(Some(text2), Some(subtext2))))
  {
    BlanknessIgnoresCase(text1, text2);
    BlanknessIgnoresCase(subtext1, subtext2);
    TextAnalysisValidator.FailingRulesUnfolded(text1, subtext1);
    TextAnalysisValidator.FailingRulesUnfolded(text2, subtext2);
  }

  /** Under a given verdict, requests that differ only in the case of their
      letters get the same answer. */
  lemma ResponseUnderVerdictIgnoresCase(report: ValidationReport, text1: string, subtext1: string,
                                        text2: string, subtext2: string)
    requires SameFolding(text1, text2) && SameFolding(subtext1, subtext2)
    ensures CharacterPositionsResponse(report, Some(TextAnalysisInput(Some(text1), Some(subtext1))))
         == CharacterPositionsResponse(report, Some(TextAnalysisInput(Some(text2), Some(subtext2))))
  {
    if |text1| > 0 && |subtext1| > 0 {
      PositionsIgnoreCase(text1, subtext1, text2, subtext2);
    }
  }

  /** With the application's own validation service, `GetCharacterPositionsAsync`
      answers requests that differ only in the case of their letters identically. */
  lemma ResponseIgnoresCase(text1: string, subtext1: string, text2: string, subtext2: string)
    requires SameFolding(text1, text2) && SameFolding(subtext1, subtext2)
    ensures var input1 := Some(TextAnalysisInput(Some(text1), Some(subtext1)));
      var input2 := Some(TextAnalysisInput(Some(text2), Some(subtext2)));
      CharacterPositionsResponse(ValidationService.Validate(input1), input1)
        == CharacterPositionsResponse(ValidationService.Validate(input2), input2)
  {
    var input1 := Some(TextAnalysisInput(Some(text1), Some(subtext1)));
    ValidationIgnoresCase(text1, subtext1, text2, subtext2);
    ResponseUnderVerdictIgnoresCase(ValidationService.Validate(input1), text1, subtext1, text2, subtext2);
  }

  /** The order `List<int>.Sort()` establishes: ascending. */
  predicate Sorted(s: seq<int>) {
    forall a, b :: 0 <= a < b < |s| ==> s[a] <= s[b]
  }

  /** The head of an ascending list is its least element. */
  lemma SortedHeadIsLeast(s: seq<int>, x: int)
    requires Sorted(s) && x in s
    ensures s[0] <= x
  {
    var a :| 0 <= a < |s| && s[a] == x;
    assert s[0] <= s[a] by { if a > 0 { assert 0 < a < |s|; } }
  }

  /** Dropping the head of an ascending list leaves an ascending list. */
  lemma SortedTail(s: seq<int>)
    requires Sorted(s) && s != []
    ensures Sorted(s[1..])
  {
    forall a, b | 0 <= a < b < |s[1..]| ensures s[1..][a] <= s[1..][b] {
      assert s[1..][a] == s[a + 1] && s[1..][b] == s[b + 1];
    }
  }

  /** Two lists with the same elements and the same head have tails with the
      same elements. */
  lemma MultisetTail(s: seq<int>, t: seq<int>)
    requires s != [] && t != [] && s[0] == t[0] && multiset(s) == multiset(t)
    ensures multiset(s[1..]) == multiset(t[1..])
  {
    assert s == [s[0]] + s[1..] && t == [t[0]] + t[1..];
    assert multiset(s[1..]) == multiset(s) - multiset([s[0]]);
    assert multiset(t[1..]) == multiset(t) - multiset([t[0]]);
  }

  /** A list has only one ascending arrangement: two sorted lists with the same
      elements, counted with multiplicity, are equal. */
  lemma {:induction false} SortedPermutationIsUnique(s: seq<int>, t: seq<int>)
    requires Sorted(s) && Sorted(t) && multiset(s) == multiset(t)
    ensures s == t
    decreases |s|
  {
    assert |t| == |multiset(t)| == |s|;
    if |s| > 0 {
      assert s[0] in multiset(s) && t[0] in multiset(t);
      SortedHeadIsLeast(t, s[0]);
      SortedHeadIsLeast(s, t[0]);
      MultisetTail(s, t);
      SortedTail(s);
      SortedTail(t);
      SortedPermutationIsUnique(s[1..], t[1..]);
      assert s == [s[0]] + s[1..] && t == [t[0]] + t[1..];
    }
  }

  /** Sorting a strictly increasing list leaves it as it is: whatever ascending
      permutation `sorted` the sort produces is the list itself. */
  lemma SortLeavesPositionsUnchanged(positions: seq<int>, sorted: seq<int>)
    requires StrictlyIncreasing(positions)
    requires Sorted(sorted) && multiset(sorted) == multiset(positions)
    ensures sorted == positions
  {
    SortedPermutationIsUnique(sorted, positions);
  }

  /** The scan's own list is one the sort at CharacterPositionsService.cs line 46
      cannot change, which is why the model maps it without sorting. */
  lemma ScanNeedsNoSort(text: string, subtext: string, sorted: seq<int>)
    requires 0 < |subtext|
    requires Sorted(sorted) && multiset(sorted) == multiset(Positions(text, subtext))
    ensures sorted == Positions(text, subtext)
  {
    PositionsSound(text, subtext);
    SortLeavesPositionsUnchanged(Positions(text, subtext), sorted);
  }

  /** An invalid verdict is answered with one mark per failure, numbered from 1,
      carrying the failure's code and message; the request itself is never
      looked at, so the scan does not run and nothing is thrown. */
  lemma InvalidVerdictGivesFailureMarks(report: ValidationReport, input: Option<TextAnalysisInput>,
                                        other: Option<TextAnalysisInput>)
    requires !report.isValid
    ensures CharacterPositionsResponse(report, input) == CharacterPositionsResponse(report, other)
    ensures CharacterPositionsResponse(report, input).Success?
    ensures |CharacterPositionsResponse(report, input).value| == |report.errors|
    ensures forall k :: 0 <= k < |report.errors| ==>
      var m := CharacterPositionsResponse(report, input).value[k];
      && ParseInt(m.id) == k + 1
      && m.mark == report.errors[k].errorCode
      && m.details == "ERROR: " + report.errors[k].errorMessage
  {
    forall k | 0 <= k < |report.errors|
      ensures ParseInt(CharacterPositionsResponse(report, input).value[k].id) == k + 1
    {
      FailureMarksEntry(report.errors, k);
    }
  }

  /** A valid verdict's failure list is never read. */
  lemma ValidVerdictIgnoresErrors(errors1: seq<ValidationFailure>, errors2: seq<ValidationFailure>,
                                  input: Option<TextAnalysisInput>)
    ensures CharacterPositionsResponse(ValidationReport(true, errors1), input)
         == CharacterPositionsResponse(ValidationReport(true, errors2), input)
  {
  }

  /** Under a valid verdict the request reaches the scan's guards: a missing
      record, or an empty text or subtext, is a null dereference; a missing
      text or subtext is an `ArgumentNullException` naming it; anything else
      is answered. */
  lemma ValidVerdictFaults(errors: seq<ValidationFailure>, input: Option<TextAnalysisInput>)
    ensures var r := CharacterPositionsResponse(ValidationReport(true, errors), input);
      && (input.None? ==> r == Failure(NullReference))
      && (input.Some? && input.value.text.None? ==> r == Failure(ArgumentNull("inputText")))
      && (input.Some? && input.value.text.Some? && input.value.subtext.None? ==>
            r == Failure(ArgumentNull("subText")))
      && (input.Some? && input.value.text.Some? && input.value.subtext.Some? ==>
            && (|input.value.text.value| == 0 || |input.value.subtext.value| == 0 ==> r == Failure(NullReference))
            && (r.Failure? <==> |input.value.text.value| == 0 || |input.value.subtext.value| == 0))
  {
  }

  /** Under a valid verdict, a request with a non-empty text and subtext is
      answered with the marks of its scan: at least one, and the N/A mark
      alone when the scan finds nothing. */
  lemma ValidVerdictMarks(errors: seq<ValidationFailure>, text: string, subtext: string)
    requires 0 < |text| && 0 < |subtext|
    ensures var r := CharacterPositionsResponse(ValidationReport(true, errors),
                                                Some(TextAnalysisInput(Some(text), Some(subtext))));
      && r == Success(PositionListModel(Positions(text, subtext)))
      && 1 <= |r.value|
      && (|Positions(text, subtext)| == 0 <==> r.value == [EmptyResult()])
  {
    PositionListModelShape(Positions(text, subtext));
    if |Positions(text, subtext)| > 0 {
      assert PositionListModel(Positions(text, subtext))[0].mark != "N/A";
    }
  }

  /** When the scan finds something, the k-th mark is numbered k + 1 and points
      at the 1-based start of a real case-insensitive occurrence, the marks in
      increasing order of position. */
  lemma ScanMarkEntry(text: string, subtext: string, k: nat)
    requires 0 < |subtext| && k < |Positions(text, subtext)|
    ensures var marks := PositionListModel(Positions(text, subtext));
      && ParseInt(marks[k].id) == k + 1
      && 1 <= ParseInt(marks[k].mark) <= |text| - |subtext| + 1
      && OccursAt(text, subtext, ParseInt(marks[k].mark) - 1)
      && (k > 0 ==> ParseInt(marks[k - 1].mark) < ParseInt(marks[k].mark))
  {
    var positions := Positions(text, subtext);
    var marks := PositionListModel(positions);
    assert 1 <= positions[k] <= |text| - |subtext| + 1 && OccursAt(text, subtext, positions[k] - 1) by {
      MatchesFromSound(text, subtext, 0, 0, k);
    }
    PositionListModelEntry(positions, k);
    if k > 0 {
      assert positions[k - 1] < positions[k] by {
        MatchesFromIncreasing(text, subtext, 0, 0, k - 1, k);
      }
      PositionListModelEntry(positions, k - 1);
    }
  }

  /** With the application's own validation service the response never
      faults: an invalid request gets at least one failure mark, a valid one
      the marks of the scan of its text for its subtext. */
  lemma ServiceResponseNeverFaults(input: Option<TextAnalysisInput>)
    ensures var report := ValidationService.Validate(input);
      var r := CharacterPositionsResponse(report, input);
      && r.Success?
      && 1 <= |r.value|
      && (!report.isValid ==> r.value == FailureMarks(report.errors))
      && (report.isValid ==>
            && input.Some? && input.value.text.Some? && input.value.subtext.Some?
            && 0 < |input.value.subtext.value| <= |input.value.text.value|
            && r.value == PositionListModel(Positions(input.value.text.value, input.value.subtext.value)))
  {
    var report := ValidationService.Validate(input);
    if report.isValid {
      ValidationService.ValidInputIsMatchable(input);
      PositionListModelShape(Positions(input.value.text.value, input.value.subtext.value));
    }
  }
}
