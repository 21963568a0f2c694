/** The values the FluentValidation library hands back after running a
    validator: the library's result and failure records, reduced to the
    fields this system reads. */
module FluentValidation {

  datatype FluentFailure = FluentFailure(errorCode: string, errorMessage: string)

  datatype FluentResult = FluentResult(errors: seq<FluentFailure>) {
    /** FluentValidation reports a result as valid exactly when it holds no failure. */
    predicate IsValid() {
      |errors| == 0
    }
  }
}
