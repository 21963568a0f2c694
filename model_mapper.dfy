/** Conversions between the library's, the application's and the response's
    records. The C# source overloads two names; here each overload has its own. */
module ModelMapper {
  import opened Decimal
  import opened Contracts
  import opened Validation
  import opened FluentValidation

  /** The mark for the `id`-th match, found at 1-based `position`. */
  function MapPositionToCharacterPosition(position: int, id: int): (m: CharacterPosition) {
    CharacterPosition(
      IntToString(id),
      IntToString(position),
      "Occurence #" + IntToString(id) + " of Subtext was found at position mark: "
        + IntToString(position) + " of the main Text.")
  }

  /** The single mark that stands for "no occurrences". */
  function EmptyResult(): (m: CharacterPosition) {
    CharacterPosition("N/A", "N/A", "No Occurences of Subtext were found in the main Text.")
  }

  /** The mark for the `id`-th validation failure. */
  function MapFailureToCharacterPosition(failure: ValidationFailure, id: int): (m: CharacterPosition) {
    CharacterPosition(IntToString(id), failure.errorCode, "ERROR: " + failure.errorMessage)
  }

  /** Copies one library failure into the application's record. */
  function MapToValidationFailureModel(failure: FluentFailure): (r: ValidationFailure)
    ensures r.errorCode == failure.errorCode && r.errorMessage == failure.errorMessage
  {
    ValidationFailure(failure.errorCode, failure.errorMessage)
  }

  /** The marks the loop over a position list appends, the k-th numbered k + 1. */
  function PositionMarks(positions: seq<int>): (r: seq<CharacterPosition>) {
    seq(|positions|, k requires 0 <= k < |positions| => MapPositionToCharacterPosition(positions[k], k + 1))
  }

  /** Extending a prefix of the list by one position appends one mark. */
  lemma PositionMarksAppend(positions: seq<int>, k: nat)
    requires k < |positions|
    ensures PositionMarks(positions[..k + 1])
         == PositionMarks(positions[..k]) + [MapPositionToCharacterPosition(positions[k], k + 1)]
  {
    assert positions[..k + 1][..k] == positions[..k];
  }

  /** The response for a position list: the N/A mark alone when it is empty. */
  function PositionListModel(positions: seq<int>): (r: seq<CharacterPosition>) {
    (if |positions| == 0 then [EmptyResult()] else []) + PositionMarks(positions)
  }

  /** The marks the loop over a failure list appends, the k-th numbered k + 1. */
  function FailureMarks(errors: seq<ValidationFailure>): (r: seq<CharacterPosition>)
    ensures |r| == |errors|
    ensures forall k :: 0 <= k < |errors| ==> r[k] == MapFailureToCharacterPosition(errors[k], k + 1)
  {
    if errors == [] then []
    else FailureMarks(errors[..|errors| - 1])
         + [MapFailureToCharacterPosition(errors[|errors| - 1], |errors|)]
  }

  /** The library's failure list copied element by element. */
  function FailureListModel(failures: seq<FluentFailure>): (r: seq<ValidationFailure>)
    ensures |r| == |failures|
    ensures forall k :: 0 <= k < |failures| ==> r[k] == MapToValidationFailureModel(failures[k])
  {
    if failures == [] then []
    else FailureListModel(failures[..|failures| - 1])
         + [MapToValidationFailureModel(failures[|failures| - 1])]
  }

  /** The value of the `ValidationResult` built from a library result. */
  function ValidationReportModel(result: FluentResult): (r: ValidationReport) {
    ValidationReport(result.IsValid(), FailureListModel(result.errors))
  }

  /** `MapToCharacterPositionListModel` on a position list. */
  method MapPositionsToCharacterPositionList(characterPositionIntList: seq<int>)
    returns (characterPositions: seq<CharacterPosition>)
    ensures characterPositions == PositionListModel(characterPositionIntList)
  {
    characterPositions := [];
    if |characterPositionIntList| == 0 {
      characterPositions := characterPositions + [EmptyResult()];
    }
    ghost var prefix := characterPositions;
    var i := 0;
    while i < |characterPositionIntList|
      invariant 0 <= i <= |characterPositionIntList|
      invariant characterPositions == prefix + PositionMarks(characterPositionIntList[..i])
    {
      i := i + 1;
      characterPositions := characterPositions
        + [MapPositionToCharacterPosition(characterPositionIntList[i - 1], i)];
      PositionMarksAppend(characterPositionIntList, i - 1);
    }
    assert characterPositionIntList[..i] == characterPositionIntList;
  }

  /** `MapToValidationFailureListModel`. */
  method MapToValidationFailureListModel(fluentValidationFailureList: seq<FluentFailure>)
    returns (validationFailureList: seq<ValidationFailure>)
    ensures validationFailureList == FailureListModel(fluentValidationFailureList)
  {
    validationFailureList := [];
    var i := 0;
    while i < |fluentValidationFailureList|
      invariant 0 <= i <= |fluentValidationFailureList|
      invariant validationFailureList == FailureListModel(fluentValidationFailureList[..i])
    {
      validationFailureList := validationFailureList
        + [MapToValidationFailureModel(fluentValidationFailureList[i])];
      i := i + 1;
      assert fluentValidationFailureList[..i][..i - 1] == fluentValidationFailureList[..i - 1];
    }
    assert fluentValidationFailureList[..i] == fluentValidationFailureList;
  }

  /** `MapToValidationResultModel`: a fresh object holding the library's verdict
      and its copied failures. */
  method MapToValidationResultModel(fluentValidationResult: FluentResult)
    returns (validationResult: ValidationResult)
    ensures fresh(validationResult)
    ensures validationResult.Report() == ValidationReportModel(fluentValidationResult)
  {
    var errors := MapToValidationFailureListModel(fluentValidationResult.errors);
    validationResult := new ValidationResult();
    validationResult.SetIsValid(fluentValidationResult.IsValid());
    validationResult.SetErrors(errors);
  }

  /** `MapToCharacterPositionListModel` on a validation result: one mark per failure. */
  method MapValidationResultToCharacterPositionList(validationResult: ValidationResult)
    returns (characterPositions: seq<CharacterPosition>)
    ensures characterPositions == FailureMarks(validationResult.errors)
  {
    characterPositions := [];
    var errors := validationResult.errors;
    var i := 0;
    while i < |errors|
      invariant 0 <= i <= |errors|
      invariant characterPositions == FailureMarks(errors[..i])
    {
      i := i + 1;
      characterPositions := characterPositions + [MapFailureToCharacterPosition(errors[i - 1], i)];
      assert errors[..i][..i - 1] == errors[..i - 1];
    }
    assert errors[..i] == errors;
  }

  /** An empty position list gives exactly the N/A mark, and a list of k positions
      gives k marks, none of them N/A; so there are max(1, k) marks. */
  lemma PositionListModelShape(positions: seq<int>)
    ensures |PositionListModel(positions)| == if |positions| == 0 then 1 else |positions|
    ensures |positions| == 0 ==> PositionListModel(positions) == [EmptyResult()]
    ensures |positions| > 0 ==> forall m :: m in PositionListModel(positions) ==> m.id != "N/A" && m.mark != "N/A"
  {
    if |positions| > 0 {
      forall m | m in PositionListModel(positions) ensures m.id != "N/A" && m.mark != "N/A" {
        var k :| 0 <= k < |positions| && PositionMarks(positions)[k] == m;
        assert IntToString(k + 1)[0] != 'N' && IntToString(positions[k])[0] != 'N';
      }
    }
  }

  /** The k-th mark of a non-empty position list is numbered k + 1, carries the k-th
      position, and says so in its details; both numbers parse back exactly. */
  lemma PositionListModelEntry(positions: seq<int>, k: nat)
    requires k < |positions|
    ensures var m := PositionListModel(positions)[k];
      && m.id == IntToString(k + 1) && ParseInt(m.id) == k + 1
      && m.mark == IntToString(positions[k]) && ParseInt(m.mark) == positions[k]
      && m.details == "Occurence #" + m.id + " of Subtext was found at position mark: " + m.mark + " of the main Text."
  {
    IntToStringRoundTrip(k + 1);
    IntToStringRoundTrip(positions[k]);
  }

  /** Failure marks: one per failure, in order, numbered from 1, carrying the code
      and the message after "ERROR: "; the empty list gives no mark at all. */
  lemma FailureMarksEntry(errors: seq<ValidationFailure>, k: nat)
    requires k < |errors|
    ensures var m := FailureMarks(errors)[k];
      && ParseInt(m.id) == k + 1
      && m.mark == errors[k].errorCode
      && m.details[..7] == "ERROR: " && m.details[7..] == errors[k].errorMessage
  {
    IntToStringRoundTrip(k + 1);
  }

  /** Copying a library result keeps its verdict and every failure's code and
      message, their number and their order. */
  lemma ValidationReportModelCopies(result: FluentResult)
    ensures ValidationReportModel(result).isValid <==> result.errors == []
    ensures |ValidationReportModel(result).errors| == |result.errors|
    ensures forall k :: 0 <= k < |result.errors| ==>
      && ValidationReportModel(result).errors[k].errorCode == result.errors[k].errorCode
      && ValidationReportModel(result).errors[k].errorMessage == result.errors[k].errorMessage
  {
  }
}
