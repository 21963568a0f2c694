/** The validation entry point: three null checks that each end the call with
    a single failure, then the rule set, whose result is copied into the
    application's record. Invalid input is returned as data, never thrown. */
module ValidationService {
  import opened Wrappers
  import opened Contracts
  import opened Validation
  import opened ModelMapper
  import TextAnalysisValidator

  const InputNotNullCode := "VE_TextAnalysisInput_NotNull_001"
  const InputNotNullMessage := "TextAnalysisInput should NOT be NULL"
  const TextNotNullCode := "VE_TextAnalysisInput_Text_NotNull_001"
  const TextNotNullMessage := "Text should NOT be NULL"
  const SubtextNotNullCode := "VE_TextAnalysisInput_Subtext_NotNull_001"
  const SubtextNotNullMessage := "Subtext should NOT be NULL"

  /** The value `ValidateTextAnalysisInputAsync` returns. */
  function Validate(input: Option<TextAnalysisInput>): (r: ValidationReport)
    ensures r.isValid <==> r.errors == []
  {
    if input.None? then
      ValidationReport(false, [ValidationFailure(InputNotNullCode, InputNotNullMessage)])
    else if input.value.text.None? then
      ValidationReport(false, [ValidationFailure(TextNotNullCode, TextNotNullMessage)])
    else if input.value.subtext.None? then
      ValidationReport(false, [ValidationFailure(SubtextNotNullCode, SubtextNotNullMessage)])
    else
      ValidationReportModel(TextAnalysisValidator.Validate(input.value.text.value, input.value.subtext.value))
  }

  /** `ValidateTextAnalysisInputAsync`, run synchronously: builds the result object. */
  method ValidateTextAnalysisInput(textAnalysisInput: Option<TextAnalysisInput>)
    returns (validationResult: ValidationResult)
    ensures fresh(validationResult)
    ensures validationResult.Report() == Validate(textAnalysisInput)
  {
    if textAnalysisInput.None? {
      validationResult := new ValidationResult.WithFailure(InputNotNullCode, InputNotNullMessage);
      return;
    }
    if textAnalysisInput.value.text.None? {
      validationResult := new ValidationResult.WithFailure(TextNotNullCode, TextNotNullMessage);
      return;
    }
    if textAnalysisInput.value.subtext.None? {
      validationResult := new ValidationResult.WithFailure(SubtextNotNullCode, SubtextNotNullMessage);
      return;
    }
    var fluentValidationResult := TextAnalysisValidator.Validate(
      textAnalysisInput.value.text.value, textAnalysisInput.value.subtext.value);
    validationResult := MapToValidationResultModel(fluentValidationResult);
  }

  /** The early exits: a missing record, then a missing text (whatever the subtext),
      then a missing subtext each give exactly one failure and an invalid result.
      The last two carry the same code and message as the rule set's own
      not-null rules. */
  lemma NullChecksGiveOneFailure(input: Option<TextAnalysisInput>)
    ensures input.None? ==>
              && !Validate(input).isValid
              && Validate(input).errors
                 == [ValidationFailure("VE_TextAnalysisInput_NotNull_001", "TextAnalysisInput should NOT be NULL")]
    ensures input.Some? && input.value.text.None? ==>
              && !Validate(input).isValid
              && Validate(input).errors
                 == [MapToValidationFailureModel(TextAnalysisValidator.FailureOf(TextAnalysisValidator.TextNotNull))]
    ensures input.Some? && input.value.text.Some? && input.value.subtext.None? ==>
              && !Validate(input).isValid
              && Validate(input).errors
                 == [MapToValidationFailureModel(TextAnalysisValidator.FailureOf(TextAnalysisValidator.SubtextNotNull))]
  {
  }

  /** When both strings are present the rule set decides: the result is valid
      exactly when every rule holds, and the failures are those of the failing
      rules, in declaration order, with their fixed codes and messages. */
  lemma PresentStringsDelegateToRules(text: string, subtext: string)
    ensures var r := Validate(Some(TextAnalysisInput(Some(text), Some(subtext))));
      var failing := TextAnalysisValidator.FailingRules(TextAnalysisValidator.Rules, text, subtext);
      && (r.isValid <==> forall rule :: TextAnalysisValidator.Passes(rule, text, subtext))
      && TextAnalysisValidator.InDeclarationOrder(failing)
      && |r.errors| == |failing|
      && forall k :: 0 <= k < |failing| ==>
           r.errors[k] == ValidationFailure(TextAnalysisValidator.ErrorCode(failing[k]),
                                            TextAnalysisValidator.ErrorMessage(failing[k]))
  {
    TextAnalysisValidator.ValidateIsValidIff(text, subtext);
    TextAnalysisValidator.ValidateReportsFailingRulesInOrder(text, subtext);
  }

  /** A valid result certifies the record and both strings present, the strings
      not blank, and the subtext no longer than the text. */
  lemma ValidInputIsMatchable(input: Option<TextAnalysisInput>)
    requires Validate(input).isValid
    ensures input.Some? && input.value.text.Some? && input.value.subtext.Some?
    ensures 0 < |input.value.subtext.value| <= |input.value.text.value|
  {
    TextAnalysisValidator.ValidPairIsMatchable(input.value.text.value, input.value.subtext.value);
  }

  /** The service's verdicts on the unit tests' inputs. */
  lemma ServiceVerdicts()
    ensures Validate(Some(TextAnalysisInput(Some("ababababa"), Some("aba")))).isValid
    ensures Validate(Some(TextAnalysisInput(Some("a"), Some("b")))).isValid
    ensures Validate(Some(TextAnalysisInput(Some("asdf"), Some("df")))).isValid
    ensures !Validate(Some(TextAnalysisInput(None, Some("aba")))).isValid
    ensures !Validate(Some(TextAnalysisInput(Some("a"), None))).isValid
    ensures Validate(Some(TextAnalysisInput(None, None))).errors == [ValidationFailure(TextNotNullCode, TextNotNullMessage)]
  {
    TextAnalysisValidator.AcceptedPairs();
  }
}
