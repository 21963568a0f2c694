/** The application's own validation records. */
module Validation {

  /** One failed rule: a stable machine-readable code and a human-readable message. */
  datatype ValidationFailure = ValidationFailure(errorCode: string, errorMessage: string)

  /** The value held by a `ValidationResult` object at one moment. */
  datatype ValidationReport = ValidationReport(isValid: bool, errors: seq<ValidationFailure>)

  /** A mutable validation outcome. `isValid` and `errors` are independent,
      settable fields: nothing in the class ties the flag to the list. */
  class ValidationResult {
    var isValid: bool
    var errors: seq<ValidationFailure>

    /** An outcome with no failures, not (yet) marked valid. */
    constructor ()
      ensures !isValid && errors == []
    {
      isValid := false;
      errors := [];
    }

    /** An outcome holding exactly one failure, not marked valid. */
    constructor WithFailure(errorCode: string, errorMessage: string)
      ensures !isValid
      ensures errors == [ValidationFailure(errorCode, errorMessage)]
    {
      isValid := false;
      errors := [];
      new;
      AddError(ValidationFailure(errorCode, errorMessage));
    }

    function Report(): (r: ValidationReport)
      reads this
    {
      ValidationReport(isValid, errors)
    }

    /** The `IsValid` setter: the error list is left as it was. */
    method SetIsValid(value: bool)
      modifies this
      ensures isValid == value && errors == old(errors)
    {
      isValid := value;
    }

    /** The `Errors` setter: the flag is left as it was. */
    method SetErrors(value: seq<ValidationFailure>)
      modifies this
      ensures errors == value && isValid == old(isValid)
    {
      errors := value;
    }

    /** `Errors.Add`: appends one failure and touches nothing else. */
    method AddError(failure: ValidationFailure)
      modifies this
      ensures errors == old(errors) + [failure] && isValid == old(isValid)
    {
      errors := errors + [failure];
    }
  }
}
