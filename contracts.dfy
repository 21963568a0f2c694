/** The request and response records shared with the HTTP layer. */
module Contracts {
  import opened Wrappers

  /** The request body: both strings may be null, and so may the record itself
      (callers pass an `Option<TextAnalysisInput>`). */
  datatype TextAnalysisInput = TextAnalysisInput(text: Option<string>, subtext: Option<string>)

  /** One entry of the response: an ordinal (or "N/A"), a mark and a sentence. */
  datatype CharacterPosition = CharacterPosition(id: string, mark: string, details: string)
}
