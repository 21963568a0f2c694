# TyreConnect Lexicon: character positions, in Dafny

TyreConnect Lexicon answers one request: given a `Text` and a `Subtext`, it
returns the 1-based start positions its scan finds: each a real
case-insensitive occurrence of the subtext, in increasing order, overlaps
included, though some occurrences are missed (see below). They come as a list of
`CharacterPosition` marks (`Id`, `Mark`, `Details`). A request is
validated first. An invalid request is answered with one `ERROR:` mark per
failed rule. A valid request that matches nothing gets a single `N/A` mark.

This project models that pipeline and proves properties of it:

- `ValidationService` runs three null checks on the request, then the five
  `TextAnalysisValidator` rules. It copies the outcome into the
  application's `ValidationResult` class.
- `CharacterPositionsService` runs the two-cursor scan
  `GetMatchesByKnuthMorrisPratt` behind the guards of
  `GetMatchedSubtextPositions`. `GetCharacterPositionsAsync` chooses between
  the error marks and the position marks.
- `ModelMapper` turns position lists and failure lists into marks.

Files and modules:

| file | module | contents |
|---|---|---|
| `wrappers.dfy` | `Wrappers` | `Option`, `Result` |
| `decimal.dfy` | `Decimal` | `int.ToString()` and its inverse |
| `contracts.dfy` | `Contracts` | `TextAnalysisInput`, `CharacterPosition` |
| `fluent_validation.dfy` | `FluentValidation` | the library's result and failure records |
| `validation.dfy` | `Validation` | `ValidationFailure`, the `ValidationResult` class |
| `text_analysis_validator.dfy` | `TextAnalysisValidator` | the five rules |
| `validation_service.dfy` | `ValidationService` | `ValidateTextAnalysisInputAsync` |
| `model_mapper.dfy` | `ModelMapper` | the mappers |
| `character_positions_service.dfy` | `CharacterPositionsService` | the scan, its guards, the orchestration |
| `character_positions_pieces.dfy` | `CharacterPositionsPieces` | the scan of a text cut where no occurrence can straddle the cut |
| `character_positions_properties.dfy` | `CharacterPositionsProperties` | case-insensitivity, sorting, and the response for every verdict |
| `character_positions_vectors.dfy` | `CharacterPositionsVectors` | the unit tests' requests and their answers |

The modelling choices:

- The scan, the list mappers, the validation service and the
  orchestration are methods. Each has a while-loop or a sequence of early
  returns, and each is proved equal to a specification function.
- `GetCharacterPositions` runs the guards of `GetMatchedSubtextPositions`
  as early returns in the same order and, when they pass, runs the loop
  `GetMatchesByKnuthMorrisPratt`. The function `MatchedSubtextPositions`
  states what those guards return and is used only in specifications.
- `ValidationResult` is a class with the two settable fields `isValid` and
  `errors`.
- A thrown `ArgumentNullException` and a null dereference become the error
  values `Fault.ArgumentNull(paramName)` and `Fault.NullReference`.
- A null request, text, subtext or position list becomes `None`.

Where the code does not do what its own comments say, the model follows
the code:

- `GetMatchesByKnuthMorrisPratt` is documented as the Knuth–Morris–Pratt
  search (CharacterPositionsService.cs:107-112), and
  `GetMatchedSubtextPositions` as looking for the occurrences of the
  subtext (lines 52-54). Knuth–Morris–Pratt reports every occurrence. This
  scan misses some, because after a partial match breaks it resets only
  the subtext cursor and keeps no failure table. `MissedOccurrence`
  exhibits one such miss.
- The comment at CharacterPositionsService.cs:72 says an empty text or
  subtext gives an empty result. The code returns `null` for it instead.
  A valid verdict then lets `Sort()` (line 46) dereference that null. The
  application's own validator rejects such requests, so the crash is
  reachable only with another validation service, as in the unit tests.

## Model

| member | source | states |
|---|---|---|
| Decimal.NatToString | TyreConnect.Lexicon.WebApi.ApplicationCore/Extensions/ModelMapper.cs:18 | the rendering of a natural number is a non-empty string of digits, with no leading zero: it starts with '0' only as "0", for 0 |
| Decimal.IntToString | TyreConnect.Lexicon.WebApi.ApplicationCore/Extensions/ModelMapper.cs:18-22 | `int.ToString()` starts with a digit exactly for non-negative numbers and with '-' exactly for negative ones |
| Decimal.ParseNatToString | TyreConnect.Lexicon.WebApi.ApplicationCore/Extensions/ModelMapper.cs:18 | parsing the digits of n gives back n |
| Decimal.IntToStringRoundTrip | TyreConnect.Lexicon.WebApi.ApplicationCore/Extensions/ModelMapper.cs:18-24 | parsing a rendered integer gives back the integer, so marks and ids carry their numbers exactly |
| Decimal.IntToStringInjective | TyreConnect.Lexicon.WebApi.ApplicationCore/Extensions/ModelMapper.cs:22-23 | distinct numbers get distinct strings |
| Validation.ValidationResult.constructor | TyreConnect.Lexicon.WebApi.ApplicationCore/Validation/ValidationResult.cs:11-14 | the default constructor gives an empty error list, with the flag false |
| Validation.ValidationResult.WithFailure | TyreConnect.Lexicon.WebApi.ApplicationCore/Validation/ValidationResult.cs:16-21 | the two-argument constructor gives exactly one failure with the given code and message, with the flag false |
| Validation.ValidationResult.SetIsValid | TyreConnect.Lexicon.WebApi.ApplicationCore/Validation/ValidationResult.cs:25 | setting the flag leaves the error list unchanged |
| Validation.ValidationResult.SetErrors | TyreConnect.Lexicon.WebApi.ApplicationCore/Validation/ValidationResult.cs:27 | setting the error list leaves the flag unchanged |
| Validation.ValidationResult.AddError | TyreConnect.Lexicon.WebApi.ApplicationCore/Validation/ValidationResult.cs:20 | `Errors.Add` appends one failure and changes nothing else |
| TextAnalysisValidator.IsNullOrWhiteSpace | TyreConnect.Lexicon.WebApi.ApplicationCore/Validation/TextAnalysisValidator.cs:25-28 | what the `NotEmpty` rules reject on a present string: every character is white space, the empty string included |
| TextAnalysisValidator.BeTextLengthLargerThanSubtextLength | TyreConnect.Lexicon.WebApi.ApplicationCore/Validation/TextAnalysisValidator.cs:56-59 | the custom length rule: the text has at least as many characters as the subtext, equal lengths passing |
| TextAnalysisValidator.Passes | TyreConnect.Lexicon.WebApi.ApplicationCore/Validation/TextAnalysisValidator.cs:18-48 | whether one declared rule holds on a pair of present strings; the two NotNull rules always hold there |
| TextAnalysisValidator.FailingRules | TyreConnect.Lexicon.WebApi.ApplicationCore/Validation/TextAnalysisValidator.cs:18-48 | every rule of the list is evaluated, and the ones that do not hold are kept in list order |
| TextAnalysisValidator.Validate | TyreConnect.Lexicon.WebApi.ApplicationCore/Validation/TextAnalysisValidator.cs:18-48 | the validator's result: one failure, with its declared code and message, per failing rule in declaration order |
| TextAnalysisValidator.FailureOfInjective | TyreConnect.Lexicon.WebApi.ApplicationCore/Validation/TextAnalysisValidator.cs:18-48 | no two rules share an error code |
| TextAnalysisValidator.FailuresOf | TyreConnect.Lexicon.WebApi.ApplicationCore/Validation/TextAnalysisValidator.cs:18-48 | one failure per failing rule, in the same order, each with that rule's code and message |
| TextAnalysisValidator.FailingRulesAreTheFailing | TyreConnect.Lexicon.WebApi.ApplicationCore/Validation/TextAnalysisValidator.cs:18-48 | a rule is reported if and only if it is run and does not hold, since every rule is evaluated independently |
| TextAnalysisValidator.FailingRulesInOrder | TyreConnect.Lexicon.WebApi.ApplicationCore/Validation/TextAnalysisValidator.cs:18-48 | the reported rules keep declaration order |
| TextAnalysisValidator.ValidateReportsFailingRulesInOrder | TyreConnect.Lexicon.WebApi.ApplicationCore/Validation/TextAnalysisValidator.cs:18-48 | the failure list holds exactly the declared code and message of each failing rule, in declaration order, and names every failing rule |
| TextAnalysisValidator.ValidateIsValidIff | TyreConnect.Lexicon.WebApi.ApplicationCore/Validation/TextAnalysisValidator.cs:18-48 | the result is valid exactly when every rule holds |
| TextAnalysisValidator.NotNullRulesNeverFail | TyreConnect.Lexicon.WebApi.ApplicationCore/Validation/TextAnalysisValidator.cs:18-34 | on present strings the two not-null rules never fire |
| TextAnalysisValidator.ValidPairIsMatchable | TyreConnect.Lexicon.WebApi.ApplicationCore/Validation/TextAnalysisValidator.cs:24-59 | a valid pair has a non-blank text and subtext, and the subtext is no longer than the text |
| TextAnalysisValidator.MatchablePairIsValid | TyreConnect.Lexicon.WebApi.ApplicationCore/Validation/TextAnalysisValidator.cs:24-59 | conversely, a pair with non-blank strings and a subtext no longer than the text is valid |
| TextAnalysisValidator.FailingRulesUnfolded | TyreConnect.Lexicon.WebApi.ApplicationCore/Validation/TextAnalysisValidator.cs:24-48 | the failing rules are the failing ones among Text_NotEmpty, Subtext_NotEmpty and the length rule, in that order |
| TextAnalysisValidator.AcceptedPairs | TyreConnect.Lexicon.Test.Unit/Validation/TextAnalysisValidatorTests.cs:27-31 | ("ababababa","aba"), ("a","b") and ("asdf","df") are valid; equal lengths pass |
| TextAnalysisValidator.RejectedEmptyOrBlank | TyreConnect.Lexicon.Test.Unit/Validation/TextAnalysisValidatorTests.cs:54-61 | empty strings fail their NotEmpty rule, and an empty text also fails the length rule |
| TextAnalysisValidator.RejectedWhiteSpace | TyreConnect.Lexicon.Test.Unit/Validation/TextAnalysisValidatorTests.cs:54-61 | white-space strings fail their NotEmpty rule; ("a","  ") fails Subtext_NotEmpty and the length rule together |
| TextAnalysisValidator.RejectedLongerSubtext | TyreConnect.Lexicon.Test.Unit/Validation/TextAnalysisValidatorTests.cs:84-86 | ("aba","ababababa") fails the length rule alone |
| ModelMapper.MapPositionToCharacterPosition | TyreConnect.Lexicon.WebApi.ApplicationCore/Extensions/ModelMapper.cs:16-26 | the mark of the id-th match: Id is the decimal id, Mark the decimal position, Details "Occurence #<id> of Subtext was found at position mark: <position> of the main Text." |
| ModelMapper.MapFailureToCharacterPosition | TyreConnect.Lexicon.WebApi.ApplicationCore/Extensions/ModelMapper.cs:74-82 | the mark of the id-th failure: Id is the decimal id, Mark the error code, Details "ERROR: " followed by the message |
| ModelMapper.EmptyResult | TyreConnect.Lexicon.WebApi.ApplicationCore/Extensions/ModelMapper.cs:98-106 | the single "no occurrences" mark: Id and Mark "N/A", Details "No Occurences of Subtext were found in the main Text." |
| ModelMapper.PositionListModel | TyreConnect.Lexicon.WebApi.ApplicationCore/Extensions/ModelMapper.cs:28-46 | the response for a position list: the N/A mark alone for an empty list, otherwise the k-th position's mark numbered k + 1 |
| ModelMapper.ValidationReportModel | TyreConnect.Lexicon.WebApi.ApplicationCore/Extensions/ModelMapper.cs:65-72 | the state of the `ValidationResult` built from a library result: its `IsValid` flag and its copied failure list |
| ModelMapper.MapToValidationFailureModel | TyreConnect.Lexicon.WebApi.ApplicationCore/Extensions/ModelMapper.cs:48-51 | the copy keeps the code and the message |
| ModelMapper.FailureListModel | TyreConnect.Lexicon.WebApi.ApplicationCore/Extensions/ModelMapper.cs:53-63 | one copy per library failure, in order |
| ModelMapper.FailureMarks | TyreConnect.Lexicon.WebApi.ApplicationCore/Extensions/ModelMapper.cs:84-96 | one mark per failure, and the k-th mark is the one for failure k numbered k + 1 |
| ModelMapper.MapPositionsToCharacterPositionList | TyreConnect.Lexicon.WebApi.ApplicationCore/Extensions/ModelMapper.cs:28-46 | the loop builds the N/A mark for an empty list, otherwise one numbered mark per position |
| ModelMapper.MapToValidationFailureListModel | TyreConnect.Lexicon.WebApi.ApplicationCore/Extensions/ModelMapper.cs:53-63 | the loop copies every failure in order |
| ModelMapper.MapToValidationResultModel | TyreConnect.Lexicon.WebApi.ApplicationCore/Extensions/ModelMapper.cs:65-72 | a fresh object holding the library's verdict and the copied failures |
| ModelMapper.MapValidationResultToCharacterPositionList | TyreConnect.Lexicon.WebApi.ApplicationCore/Extensions/ModelMapper.cs:84-96 | the loop builds one numbered error mark per failure; an empty list gives no mark |
| ModelMapper.PositionListModelShape | TyreConnect.Lexicon.WebApi.ApplicationCore/Extensions/ModelMapper.cs:28-46 | an empty list gives exactly the N/A mark; k > 0 positions give k marks, none N/A; so max(1, k) marks |
| ModelMapper.PositionListModelEntry | TyreConnect.Lexicon.WebApi.ApplicationCore/Extensions/ModelMapper.cs:16-26 | the k-th mark has id k + 1, mark the k-th position, and the details sentence built from both; both numbers parse back |
| ModelMapper.FailureMarksEntry | TyreConnect.Lexicon.WebApi.ApplicationCore/Extensions/ModelMapper.cs:74-96 | the k-th error mark has id k + 1, mark the failure's code, and details "ERROR: " followed by its message |
| ModelMapper.ValidationReportModelCopies | TyreConnect.Lexicon.WebApi.ApplicationCore/Extensions/ModelMapper.cs:65-72 | the copy is valid exactly when there are no failures, and keeps every code and message, their number and order |
| ValidationService.Validate | TyreConnect.Lexicon.WebApi.ApplicationCore/Services/ValidationService.cs:22-47 | the service's result is valid exactly when its failure list is empty |
| ValidationService.ValidateTextAnalysisInput | TyreConnect.Lexicon.WebApi.ApplicationCore/Services/ValidationService.cs:22-47 | the method returns a fresh object whose state is the service's result |
| ValidationService.NullChecksGiveOneFailure | TyreConnect.Lexicon.WebApi.ApplicationCore/Services/ValidationService.cs:25-38 | a null record, then a null text (whatever the subtext), then a null subtext each give exactly one failure with the fixed code and message, and an invalid result |
| ValidationService.PresentStringsDelegateToRules | TyreConnect.Lexicon.WebApi.ApplicationCore/Services/ValidationService.cs:40-46 | with both strings present, the result is valid exactly when every rule holds, and the failures are the failing rules' codes and messages in declaration order |
| ValidationService.ValidInputIsMatchable | TyreConnect.Lexicon.WebApi.ApplicationCore/Services/ValidationService.cs:22-47 | a valid result certifies a present record, present non-empty strings and a subtext no longer than the text |
| ValidationService.ServiceVerdicts | TyreConnect.Lexicon.Test.Unit/Services/ValidationServiceTests.cs:38-69 | the unit tests' valid pairs are accepted; a null text or subtext is rejected; with both null, only Text_NotNull is reported |
| CharacterPositionsService.ToLower | TyreConnect.Lexicon.WebApi.ApplicationCore/Services/CharacterPositionsService.cs:99 | the fold maps no character to an upper-case ASCII letter, and changes only 'A'..'Z', each by +32 |
| CharacterPositionsService.MatchCharacters | TyreConnect.Lexicon.WebApi.ApplicationCore/Services/CharacterPositionsService.cs:95-105 | the character comparison: equality of the `ToLower` images when not case-sensitive, plain equality otherwise |
| CharacterPositionsService.MatchesFrom | TyreConnect.Lexicon.WebApi.ApplicationCore/Services/CharacterPositionsService.cs:132-176 | the positions the loop appends from cursor state (text index, subtext index) on, one loop iteration per call: advance both on a match, record and rewind to one past the match start on a full match, reset only the subtext cursor on a broken partial match, advance the text cursor otherwise |
| CharacterPositionsService.Positions | TyreConnect.Lexicon.WebApi.ApplicationCore/Services/CharacterPositionsService.cs:116-179 | the positions a whole scan appends, starting with both cursors at 0 |
| CharacterPositionsService.MatchCharactersIsEquivalence | TyreConnect.Lexicon.WebApi.ApplicationCore/Services/CharacterPositionsService.cs:95-105 | the character comparison is reflexive, symmetric and transitive, and a case-sensitive match is also a case-insensitive one |
| CharacterPositionsService.MatchesFromSound | TyreConnect.Lexicon.WebApi.ApplicationCore/Services/CharacterPositionsService.cs:132-176 | from a genuine partial-match state, every reported position lies past the current candidate start, fits in the text, and starts a real case-insensitive occurrence |
| CharacterPositionsService.MatchesFromIncreasing | TyreConnect.Lexicon.WebApi.ApplicationCore/Services/CharacterPositionsService.cs:132-176 | from any state, the reported positions strictly increase |
| CharacterPositionsService.PositionsSound | TyreConnect.Lexicon.WebApi.ApplicationCore/Services/CharacterPositionsService.cs:116-179 | every position of a whole scan is the 1-based start of an occurrence, between 1 and the text length minus the subtext length plus 1, and the list strictly increases |
| CharacterPositionsService.GetMatchesByKnuthMorrisPratt | TyreConnect.Lexicon.WebApi.ApplicationCore/Services/CharacterPositionsService.cs:116-179 | the loop stays in bounds, terminates, and returns the scan's positions: sound, in range and strictly increasing |
| CharacterPositionsService.MatchedSubtextPositions | TyreConnect.Lexicon.WebApi.ApplicationCore/Services/CharacterPositionsService.cs:59-86 | what `GetMatchedSubtextPositions` returns: ArgumentNull("inputText"), then ArgumentNull("subText"), then null for an empty text or subtext, otherwise the scan's positions |
| CharacterPositionsService.MatchedSubtextPositionsGuards | TyreConnect.Lexicon.WebApi.ApplicationCore/Services/CharacterPositionsService.cs:62-81 | a null text throws naming "inputText" whatever the subtext; then a null subtext throws naming "subText"; an empty string gives null, not an empty list; any list returned is the scan's |
| CharacterPositionsService.CharacterPositionsResponse | TyreConnect.Lexicon.WebApi.ApplicationCore/Services/CharacterPositionsService.cs:35-49 | the branch logic: an invalid verdict gives the failure marks; a valid one reads the request, a null record or null list is a null dereference, and otherwise the scan's positions are mapped to marks |
| CharacterPositionsService.GetCharacterPositions | TyreConnect.Lexicon.WebApi.ApplicationCore/Services/CharacterPositionsService.cs:39-48 | given the validation service's object, the answer is the response function of its state |
| CharacterPositionsService.GetCharacterPositionsAsync | TyreConnect.Lexicon.WebApi.ApplicationCore/Services/CharacterPositionsService.cs:35-49 | with the application's validation service, the answer is the response function of that service's result |
| CharacterPositionsPieces.MatchesFromShift | TyreConnect.Lexicon.WebApi.ApplicationCore/Services/CharacterPositionsService.cs:132-176 | behind a prefix, the scan from any state reports its positions on the text alone, moved on by the prefix's length |
| CharacterPositionsPieces.MatchesFromSplit | TyreConnect.Lexicon.WebApi.ApplicationCore/Services/CharacterPositionsService.cs:132-176 | on a piece ending in a character that matches nothing in the subtext, the scan reports the piece's positions and then resumes past the piece with no partial match pending |
| CharacterPositionsPieces.PositionsOfConcat | TyreConnect.Lexicon.WebApi.ApplicationCore/Services/CharacterPositionsService.cs:116-179 | a text cut after such a character is scanned as its two parts: the first part's positions, then the second's moved on by the first part's length |
| CharacterPositionsProperties.MatchesFromIgnoresCase | TyreConnect.Lexicon.WebApi.ApplicationCore/Services/CharacterPositionsService.cs:132-176 | from the same state, texts and subtexts that differ only in case give the same positions |
| CharacterPositionsProperties.PositionsIgnoreCase | TyreConnect.Lexicon.WebApi.ApplicationCore/Services/CharacterPositionsService.cs:143 | changing the case of any letters of the text or the subtext leaves the scan's positions unchanged |
| CharacterPositionsProperties.BlanknessIgnoresCase | TyreConnect.Lexicon.WebApi.ApplicationCore/Validation/TextAnalysisValidator.cs:25-40 | a case change never turns a blank string into a non-blank one, or back |
| CharacterPositionsProperties.ValidationIgnoresCase | TyreConnect.Lexicon.WebApi.ApplicationCore/Services/ValidationService.cs:22-47 | requests that differ only in case get the same verdict and the same failures |
| CharacterPositionsProperties.ResponseUnderVerdictIgnoresCase | TyreConnect.Lexicon.WebApi.ApplicationCore/Services/CharacterPositionsService.cs:39-48 | under any fixed verdict, requests that differ only in case get the same answer |
| CharacterPositionsProperties.ResponseIgnoresCase | TyreConnect.Lexicon.WebApi.ApplicationCore/Services/CharacterPositionsService.cs:35-49 | with the application's own validation service, requests that differ only in case get the same answer |
| CharacterPositionsProperties.SortedPermutationIsUnique | TyreConnect.Lexicon.WebApi.ApplicationCore/Services/CharacterPositionsService.cs:46 | two ascending lists with the same elements, counted with multiplicity, are equal |
| CharacterPositionsProperties.SortLeavesPositionsUnchanged | TyreConnect.Lexicon.WebApi.ApplicationCore/Services/CharacterPositionsService.cs:46 | any ascending permutation of a strictly increasing list is that list |
| CharacterPositionsProperties.ScanNeedsNoSort | TyreConnect.Lexicon.WebApi.ApplicationCore/Services/CharacterPositionsService.cs:44-46 | the `Sort()` applied to the scan's list leaves it unchanged |
| CharacterPositionsProperties.InvalidVerdictGivesFailureMarks | TyreConnect.Lexicon.WebApi.ApplicationCore/Services/CharacterPositionsService.cs:39-42 | an invalid verdict gives one error mark per failure, with the failure's code and message; the request is never read and nothing is thrown |
| CharacterPositionsProperties.ValidVerdictIgnoresErrors | TyreConnect.Lexicon.WebApi.ApplicationCore/Services/CharacterPositionsService.cs:39-48 | under a valid verdict the failure list is ignored |
| CharacterPositionsProperties.ValidVerdictFaults | TyreConnect.Lexicon.WebApi.ApplicationCore/Services/CharacterPositionsService.cs:44-46 | under a valid verdict: a null record is a null dereference; a null text or subtext is an ArgumentNullException naming it; an empty text or subtext is a null dereference at the sort; any other request is answered |
| CharacterPositionsProperties.ValidVerdictMarks | TyreConnect.Lexicon.WebApi.ApplicationCore/Services/CharacterPositionsService.cs:44-48 | under a valid verdict, non-empty strings are answered with the marks of the scan: at least one, and exactly the N/A mark when there is no position |
| CharacterPositionsProperties.ScanMarkEntry | TyreConnect.Lexicon.WebApi.ApplicationCore/Services/CharacterPositionsService.cs:44-48 | the k-th position mark is numbered k + 1, points at the 1-based start of a real occurrence within range, and lies after the previous mark |
| CharacterPositionsProperties.ServiceResponseNeverFaults | TyreConnect.Lexicon.WebApi.ApplicationCore/Services/CharacterPositionsService.cs:35-49 | with the application's own validation service the answer never faults and has at least one mark: error marks when invalid, the scan's marks when valid |
| CharacterPositionsVectors.PollyTextsDifferOnlyInCase | TyreConnect.Lexicon.Test.Unit/Services/CharacterPositionsServiceTests.cs:73-75 | the two test texts differ only in case |
| CharacterPositionsVectors.MockedResponse | TyreConnect.Lexicon.Test.Unit/Services/CharacterPositionsServiceTests.cs:52-57 | against a mocked valid verdict with arbitrary failures, a request is answered with the marks of its scan |
| CharacterPositionsVectors.PollyScan | TyreConnect.Lexicon.Test.Unit/Services/CharacterPositionsServiceTests.cs:73-75 | "Polly" is found at 1, 26 and 51 in both test texts |
| CharacterPositionsVectors.PollyPositions | TyreConnect.Lexicon.Test.Unit/Services/CharacterPositionsServiceTests.cs:72-110 | "Polly", "polly" and "pOlLy" are found at 1, 26 and 51 |
| CharacterPositionsVectors.LLScan | TyreConnect.Lexicon.Test.Unit/Services/CharacterPositionsServiceTests.cs:118-121 | "LL" is found at 3, 28, 53, 78 and 82 in both test texts |
| CharacterPositionsVectors.LLPositions | TyreConnect.Lexicon.Test.Unit/Services/CharacterPositionsServiceTests.cs:117-160 | "LL", "ll", "Ll" and "lL" are found at 3, 28, 53, 78 and 82 |
| CharacterPositionsVectors.XxScan | TyreConnect.Lexicon.Test.Unit/Services/CharacterPositionsServiceTests.cs:169-172 | "Xx" is found nowhere in either test text |
| CharacterPositionsVectors.XxPositions | TyreConnect.Lexicon.Test.Unit/Services/CharacterPositionsServiceTests.cs:168-198 | "Xx", "xX", "xx" and "XX" are not found |
| CharacterPositionsVectors.OverlapPositions | TyreConnect.Lexicon.Test.Unit/Services/CharacterPositionsServiceTests.cs:206-246 | "aba" in any of the four casings is found in "ababababa" at the overlapping positions 1, 3, 5 and 7 |
| CharacterPositionsVectors.ShortPositions | TyreConnect.Lexicon.Test.Unit/Services/CharacterPositionsServiceTests.cs:39-65 | "a" in "a" is at 1 and "df" in "asdf" at 3 |
| CharacterPositionsVectors.PollyMarks | TyreConnect.Lexicon.Test.Unit/Services/CharacterPositionsServiceTests.cs:97-108 | the answer for 1, 26, 51 holds the marks "1", "26" and "51" |
| CharacterPositionsVectors.LLMarks | TyreConnect.Lexicon.Test.Unit/Services/CharacterPositionsServiceTests.cs:143-159 | the answer for 3, 28, 53, 78, 82 holds the marks "3", "28", "53", "78" and "82" |
| CharacterPositionsVectors.OverlapAndNoneMarks | TyreConnect.Lexicon.Test.Unit/Services/CharacterPositionsServiceTests.cs:193-245 | the answer for 1, 3, 5, 7 holds the marks "1", "3", "5" and "7", and the answer for no position is the single "N/A" mark |
| CharacterPositionsVectors.ScanAnswersPlainRequest | TyreConnect.Lexicon.WebApi.ApplicationCore/Services/CharacterPositionsService.cs:35-49 | with the application's own validation service, a request whose strings start with a non-white-space character, the subtext no longer than the text, is accepted and answered with the marks of its scan |
| CharacterPositionsVectors.ShortRequestsAnswered | TyreConnect.Lexicon.Test.Unit/Services/CharacterPositionsServiceTests.cs:40-42 | the unmocked service accepts ("a","a") and ("asdf","df") and answers them with the marks of their scans |
| CharacterPositionsVectors.PollyRequestsAnswered | TyreConnect.Lexicon.Test.Unit/Services/CharacterPositionsServiceTests.cs:73-75 | the unmocked service accepts the three "Polly" requests and answers them with the marks of their scans |
| CharacterPositionsVectors.LLRequestsAnswered | TyreConnect.Lexicon.Test.Unit/Services/CharacterPositionsServiceTests.cs:118-121 | the unmocked service accepts the four "LL" requests and answers them with the marks of their scans |
| CharacterPositionsVectors.XxRequestsAnswered | TyreConnect.Lexicon.Test.Unit/Services/CharacterPositionsServiceTests.cs:168-197 | the unmocked service accepts the four "Xx" requests and answers each with the single N/A mark |
| CharacterPositionsVectors.OverlapRequestsAnswered | TyreConnect.Lexicon.Test.Unit/Services/CharacterPositionsServiceTests.cs:207-210 | the unmocked service accepts the four overlap requests, ("ababababa","aba") among them, and answers them with the marks of their scans |
| CharacterPositionsVectors.MissedOccurrence | TyreConnect.Lexicon.WebApi.ApplicationCore/Services/CharacterPositionsService.cs:165-169 | "aab" occurs in "aaab" at index 1, yet the scan reports nothing and the answer is the N/A mark |

## Left out

- HTTP and hosting are not modelled: the controller, JSON serialisation, `Startup` and `Program`. They are transport plumbing.
- Dependency wiring (`IServiceCollectionExtension`) is not modelled. The validation service calls the rule set directly, and `GetCharacterPositions` takes the verdict object as a parameter.
- The interfaces `ICharacterPositionsService` and `IValidationService` are not modelled. They hold no logic.
- `GetInfo` is not modelled. It returns a constant JSON string.
- `async`/`Task`: every call is modelled synchronously.
- FluentValidation's rule builder is not modelled. It is replaced by its observable outcome: each rule is run independently, and the failures appear in declaration order with the declared code and message.
- The `ValidationFailure` properties are settable in C#. Here `ValidationFailure` is an immutable record; nothing in the core sets them after construction.
- CharacterPositionsService.ToLower: folds only the ASCII letters. `char.ToLower` is culture-sensitive and folds every Unicode letter, so case-insensitivity beyond ASCII is not captured, and the model assumes a culture whose lower-casing of 'A'..'Z' is the ASCII one (not Turkish or Azeri, where `char.ToLower('I')` is 'ı').
- The verdict's `Errors` list, its elements and their code and message are assumed non-null. A substitute validation service that returns a null `Errors` list under an invalid verdict makes the `foreach` at ModelMapper.cs:89 throw a `NullReferenceException`, which is not modelled.
- CharacterPositionsService.GetCharacterPositions: does not execute `List<int>.Sort()` in place. The list is mapped as the scan returns it. `SortLeavesPositionsUnchanged` and `ScanNeedsNoSort` prove that any ascending permutation of it is the list itself.
- CharacterPositionsService.GetMatchesByKnuthMorrisPratt: loops on its exit condition instead of a flag cleared before `break`. The two loops take the same steps.
- CharacterPositionsService.GetMatchesByKnuthMorrisPratt: states no completeness property, because the scan misses occurrences (`MissedOccurrence`).
- 32-bit wrap-around is not modelled. Positions, counters and ids are bounded by the length of a string, which fits in an `int`.
- `char.IsWhiteSpace` is the fixed set of Unicode white-space characters.
- Strings are sequences of Unicode scalar values, while C# strings are sequences of UTF-16 code units. For text outside the Basic Multilingual Plane, C# counts lengths and positions in code units and the model counts scalar values, so the length rule's verdict and the reported positions differ: "a" in "😀a" is at 3 in C# and at 2 in the model, and ("😀", "ab") passes the length rule in C# but fails it in the model. A lone surrogate cannot be represented. There is no grapheme handling.
- The test texts of the "Polly", "LL" and "Xx" tests are built as the concatenation of their four clauses, each a literal. The doc comment of `PollyText` shows the whole literal; the equality of the concatenation with that literal is not proved.
- Moq and AutoFixture, the unit-test scaffolding, are not modelled. A mocked valid verdict is a `ValidationReport(true, errors)` with arbitrary `errors`.
