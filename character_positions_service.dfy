/** The scan for the 1-based start positions of a subtext in a text,
    compared case-insensitively (each position it reports is a real
    occurrence, though it misses some), and the service operation that
    validates a request, runs the scan and maps either outcome to response
    marks.

    The search is a two-cursor scan. After a full match the text cursor is
    moved back to one past the match's start, so overlapping occurrences are
    reported; after a partial match breaks, only the subtext cursor is reset.
    The latter means the scan does not find every occurrence (see
    `MissedOccurrence`), but what it reports is sound, in range and strictly
    increasing. */
module CharacterPositionsService {
  import opened Wrappers
  import opened Contracts
  import opened Validation
  import opened ModelMapper
  import ValidationService
  import TextAnalysisValidator

  /** `char.ToLower`, restricted to the ASCII letters: 'A'..'Z' map to 'a'..'z',
      every other character is its own image. */
  function ToLower(c: char): (r: char)
    ensures !('A' <= r <= 'Z')
    ensures r != c ==> 'A' <= c <= 'Z' && r as int - c as int == 32
  {
    if 'A' <= c <= 'Z' then (c as int + 32) as char else c
  }

  /** Character comparison; the scan always uses the case-insensitive form. */
  function MatchCharacters(x: char, y: char, caseSensitive: bool): (b: bool) {
    if !caseSensitive then ToLower(x) == ToLower(y) else x == y
  }

  /** The scan's comparison is an equivalence, and a case-sensitive match is
      also a case-insensitive one. */
  lemma MatchCharactersIsEquivalence(x: char, y: char, z: char, caseSensitive: bool)
    ensures MatchCharacters(x, x, caseSensitive)
    ensures MatchCharacters(x, y, caseSensitive) == MatchCharacters(y, x, caseSensitive)
    ensures MatchCharacters(x, y, caseSensitive) && MatchCharacters(y, z, caseSensitive)
            ==> MatchCharacters(x, z, caseSensitive)
    ensures MatchCharacters(x, y, true) ==> MatchCharacters(x, y, false)
  {
  }

  /** The first `len` characters of `subtext` match the text from 0-based `start` on. */
  predicate PrefixMatches(text: string, subtext: string, start: int, len: nat) {
    && 0 <= start
    && start + len <= |text|
    && len <= |subtext|
    && forall q :: 0 <= q < len ==> MatchCharacters(text[start + q], subtext[q], false)
  }

  /** `subtext` occurs in `text` at 0-based `start`, ignoring case. */
  predicate OccursAt(text: string, subtext: string, start: int) {
    PrefixMatches(text, subtext, start, |subtext|)
  }

  predicate StrictlyIncreasing(s: seq<int>) {
    forall a, b :: 0 <= a < b < |s| ==> s[a] < s[b]
  }

  /** The positions the scan reports from cursor state (i, j) on, one loop
      iteration per call: i indexes the text, j the subtext. */
  function MatchesFrom(text: string, subtext: string, i: nat, j: nat): (r: seq<int>)
    requires 0 < |subtext| && j < |subtext| && j <= i <= |text|
    decreases |text| - (i - j), |subtext| - j
  {
    if i == |text| then []
    else if MatchCharacters(text[i], subtext[j], false) then
      if j + 1 == |subtext| then
        // a full match ends at i: report its 1-based start, resume one past that start
        [(i + 1 - |subtext|) + 1] + MatchesFrom(text, subtext, i + 1 - |subtext| + 1, 0)
      else
        MatchesFrom(text, subtext, i + 1, j + 1)
    else if j > 0 then
      MatchesFrom(text, subtext, i, 0)
    else
      MatchesFrom(text, subtext, i + 1, 0)
  }

  /** The positions a whole scan reports. */
  function Positions(text: string, subtext: string): (r: seq<int>)
    requires 0 < |subtext|
  {
    MatchesFrom(text, subtext, 0, 0)
  }

  /** A matching next character extends a matched prefix by one. */
  lemma PrefixMatchesExtend(text: string, subtext: string, start: int, len: nat)
    requires PrefixMatches(text, subtext, start, len)
    requires start + len < |text| && len < |subtext|
    requires MatchCharacters(text[start + len], subtext[len], false)
    ensures PrefixMatches(text, subtext, start, len + 1)
  {
  }

  /** From a state whose partial match is genuine, each reported position lies
      after the current candidate start and is a real occurrence that fits in
      the text. */
  lemma {:induction false} MatchesFromSound(text: string, subtext: string, i: nat, j: nat, k: nat)
    requires 0 < |subtext| && j < |subtext| && j <= i <= |text|
    requires PrefixMatches(text, subtext, i - j, j)
    requires k < |MatchesFrom(text, subtext, i, j)|
    ensures var p := MatchesFrom(text, subtext, i, j)[k];
      i - j < p <= |text| - |subtext| + 1 && OccursAt(text, subtext, p - 1)
    decreases |text| - (i - j), |subtext| - j
  {
    if MatchCharacters(text[i], subtext[j], false) {
      PrefixMatchesExtend(text, subtext, i - j, j);
      if j + 1 == |subtext| {
        if k > 0 {
          MatchesFromSound(text, subtext, i - j + 1, 0, k - 1);
        }
      } else {
        MatchesFromSound(text, subtext, i + 1, j + 1, k);
      }
    } else if j > 0 {
      MatchesFromSound(text, subtext, i, 0, k);
    } else {
      MatchesFromSound(text, subtext, i + 1, 0, k);
    }
  }

  /** From any state, the reported positions strictly increase. */
  lemma {:induction false} MatchesFromIncreasing(text: string, subtext: string, i: nat, j: nat, a: nat, b: nat)
    requires 0 < |subtext| && j < |subtext| && j <= i <= |text|
    requires a < b < |MatchesFrom(text, subtext, i, j)|
    ensures MatchesFrom(text, subtext, i, j)[a] < MatchesFrom(text, subtext, i, j)[b]
    decreases |text| - (i - j), |subtext| - j
  {
    if MatchCharacters(text[i], subtext[j], false) {
      if j + 1 == |subtext| {
        if a > 0 {
          MatchesFromIncreasing(text, subtext, i - j + 1, 0, a - 1, b - 1);
        } else {
          MatchesFromSound(text, subtext, i - j + 1, 0, b - 1);
        }
      } else {
        MatchesFromIncreasing(text, subtext, i + 1, j + 1, a, b);
      }
    } else if j > 0 {
      MatchesFromIncreasing(text, subtext, i, 0, a, b);
    } else {
      MatchesFromIncreasing(text, subtext, i + 1, 0, a, b);
    }
  }

  /** Every position of a whole scan is a 1-based start of an occurrence,
      between 1 and |text| - |subtext| + 1, and the list strictly increases. */
  lemma PositionsSound(text: string, subtext: string)
    requires 0 < |subtext|
    ensures forall k :: 0 <= k < |Positions(text, subtext)| ==>
      && 1 <= Positions(text, subtext)[k] <= |text| - |subtext| + 1
      && OccursAt(text, subtext, Positions(text, subtext)[k] - 1)
    ensures StrictlyIncreasing(Positions(text, subtext))
  {
    forall k | 0 <= k < |Positions(text, subtext)|
      ensures 1 <= Positions(text, subtext)[k] <= |text| - |subtext| + 1
      ensures OccursAt(text, subtext, Positions(text, subtext)[k] - 1)
    {
      MatchesFromSound(text, subtext, 0, 0, k);
    }
    forall a, b | 0 <= a < b < |Positions(text, subtext)|
      ensures Positions(text, subtext)[a] < Positions(text, subtext)[b]
    {
      MatchesFromIncreasing(text, subtext, 0, 0, a, b);
    }
  }

  /** `GetMatchesByKnuthMorrisPratt` (which, despite its name, keeps no failure table). */
  method GetMatchesByKnuthMorrisPratt(text: string, subtext: string) returns (result: seq<int>)
    requires 0 < |subtext|
    ensures result == Positions(text, subtext)
    ensures forall k :: 0 <= k < |result| ==>
      1 <= result[k] <= |text| - |subtext| + 1 && OccursAt(text, subtext, result[k] - 1)
    ensures StrictlyIncreasing(result)
  {
    result := [];
    var inputTextSize := |text|;
    var subTextSize := |subtext|;
    var subTextMarker := 0;
    var inputTextMarker := 0;
    while inputTextMarker != inputTextSize
      invariant 0 <= subTextMarker < subTextSize
      invariant subTextMarker <= inputTextMarker <= inputTextSize
      invariant result + MatchesFrom(text, subtext, inputTextMarker, subTextMarker) == Positions(text, subtext)
      decreases inputTextSize - (inputTextMarker - subTextMarker), subTextSize - subTextMarker
    {
      if MatchCharacters(text[inputTextMarker], subtext[subTextMarker], false) {
        subTextMarker := subTextMarker + 1;
        inputTextMarker := inputTextMarker + 1;
        if subTextMarker == subTextSize {
          ghost var before := result;
          result := result + [(inputTextMarker - subTextSize) + 1];
          subTextMarker := 0;
          inputTextMarker := inputTextMarker - subTextSize + 1;
          assert before + ([inputTextMarker] + MatchesFrom(text, subtext, inputTextMarker, 0))
              == result + MatchesFrom(text, subtext, inputTextMarker, 0);
        }
      } else if subTextMarker > 0 {
        subTextMarker := 0;
      } else {
        inputTextMarker := inputTextMarker + 1;
      }
    }
    assert result == Positions(text, subtext);
    PositionsSound(text, subtext);
  }

  /** The two ways the source throws: `ArgumentNullException` with the given
      parameter name, and a null dereference. */
  datatype Fault = ArgumentNull(paramName: string) | NullReference

  /** What `GetMatchedSubtextPositions` returns: a null string throws, an empty
      one gives a null list, anything else is scanned by
      `GetMatchesByKnuthMorrisPratt`, whose result is `Positions`. The guards
      run as early returns in `GetCharacterPositions`. */
  function MatchedSubtextPositions(inputText: Option<string>, subText: Option<string>)
    : (r: Result<Option<seq<int>>, Fault>)
  {
    if inputText.None? then Failure(ArgumentNull("inputText"))
    else if subText.None? then Failure(ArgumentNull("subText"))
    else if inputText.value == "" then Success(None)
    else if subText.value == "" then Success(None)
    else Success(Some(Positions(inputText.value, subText.value)))
  }

  /** The guards: a null text throws first, naming "inputText", whatever the
      subtext; then a null subtext throws naming "subText"; an empty text or
      subtext gives a null list, not an empty one; otherwise the list is the scan's. */
  lemma MatchedSubtextPositionsGuards(inputText: Option<string>, subText: Option<string>)
    ensures inputText.None? ==> MatchedSubtextPositions(inputText, subText) == Failure(ArgumentNull("inputText"))
    ensures inputText.Some? && subText.None? ==>
              MatchedSubtextPositions(inputText, subText) == Failure(ArgumentNull("subText"))
    ensures inputText.Some? && subText.Some? ==>
              (MatchedSubtextPositions(inputText, subText) == Success(None)
               <==> |inputText.value| == 0 || |subText.value| == 0)
    ensures MatchedSubtextPositions(inputText, subText).Success?
            && MatchedSubtextPositions(inputText, subText).value.Some? ==>
              && inputText.Some? && subText.Some? && 0 < |subText.value|
              && MatchedSubtextPositions(inputText, subText).value.value == Positions(inputText.value, subText.value)
  {
  }

  /** What `GetCharacterPositionsAsync` returns once the validation service has
      answered with `report`. An invalid report is mapped to error marks; a
      valid one runs the scan and maps its positions. A null record (line 44)
      or a null list (the `Sort()` at line 46) is a null dereference. */
  function CharacterPositionsResponse(report: ValidationReport, input: Option<TextAnalysisInput>)
    : (r: Result<seq<CharacterPosition>, Fault>)
  {
    if !report.isValid then Success(FailureMarks(report.errors))
    else if input.None? then Failure(NullReference)
    else match MatchedSubtextPositions(input.value.text, input.value.subtext)
      case Failure(fault) => Failure(fault)
      case Success(None) => Failure(NullReference)
      case Success(Some(positions)) => Success(PositionListModel(positions))
  }

  /** `GetCharacterPositionsAsync` after its call to the validation service,
      given the object that service returned (the unit tests substitute their own). */
  method GetCharacterPositions(validationResult: ValidationResult, textAnalysisInput: Option<TextAnalysisInput>)
    returns (r: Result<seq<CharacterPosition>, Fault>)
    ensures r == CharacterPositionsResponse(validationResult.Report(), textAnalysisInput)
  {
    if !validationResult.isValid {
      var marks := MapValidationResultToCharacterPositionList(validationResult);
      return Success(marks);
    }
    if textAnalysisInput.None? {
      return Failure(NullReference);
    }
    // the guards of `GetMatchedSubtextPositions`; a null list then fails at `Sort()`
    var inputText, subText := textAnalysisInput.value.text, textAnalysisInput.value.subtext;
    if inputText.None? {
      return Failure(ArgumentNull("inputText"));
    }
    if subText.None? {
      return Failure(ArgumentNull("subText"));
    }
    if inputText.value == "" {
      return Failure(NullReference);
    }
    if subText.value == "" {
      return Failure(NullReference);
    }
    var positionsIntCollection := GetMatchesByKnuthMorrisPratt(inputText.value, subText.value);
    // `Sort()` is the identity here: the list strictly increases (SortLeavesPositionsUnchanged).
    var marks := MapPositionsToCharacterPositionList(positionsIntCollection);
    return Success(marks);
  }

  /** `GetCharacterPositionsAsync` with the application's own validation service. */
  method GetCharacterPositionsAsync(textAnalysisInput: Option<TextAnalysisInput>)
    returns (r: Result<seq<CharacterPosition>, Fault>)
    ensures r == CharacterPositionsResponse(ValidationService.Validate(textAnalysisInput), textAnalysisInput)
  {
    var validationResult := ValidationService.ValidateTextAnalysisInput(textAnalysisInput);
    r := GetCharacterPositions(validationResult, textAnalysisInput);
  }
}
