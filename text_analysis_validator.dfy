/** The rule set run over a request whose two strings are both present: five
    independent rules, evaluated in declaration order, each contributing its
    own fixed failure when it does not hold. */
module TextAnalysisValidator {
  import opened FluentValidation

  datatype Rule =
    | TextNotNull
    | TextNotEmpty
    | SubtextNotNull
    | SubtextNotEmpty
    | SubtextNotLongerThanText

  /** The rules in the order they are declared, which is the order their
      failures are reported in. */
  const Rules: seq<Rule> :=
    [TextNotNull, TextNotEmpty, SubtextNotNull, SubtextNotEmpty, SubtextNotLongerThanText]

  /** The position of a rule in `Rules`. */
  function Order(rule: Rule): (k: nat)
    ensures k < |Rules| && Rules[k] == rule
  {
    match rule
    case TextNotNull => 0
    case TextNotEmpty => 1
    case SubtextNotNull => 2
    case SubtextNotEmpty => 3
    case SubtextNotLongerThanText => 4
  }

  function ErrorCode(rule: Rule): (code: string) {
    match rule
    case TextNotNull => "VE_TextAnalysisInput_Text_NotNull_001"
    case TextNotEmpty => "VE_TextAnalysisInput_Text_NotEmpty_001"
    case SubtextNotNull => "VE_TextAnalysisInput_Subtext_NotNull_001"
    case SubtextNotEmpty => "VE_TextAnalysisInput_Subtext_NotEmpty_001"
    case SubtextNotLongerThanText => "VE_TextAnalysisInput_SubtextLengthLargerThanTextLength_NotValid_001"
  }

  function ErrorMessage(rule: Rule): (message: string) {
    match rule
    case TextNotNull => "Text should NOT be NULL"
    case TextNotEmpty => "Text should NOT be Empty"
    case SubtextNotNull => "Subtext should NOT be NULL"
    case SubtextNotEmpty => "Subtext should NOT be Empty"
    case SubtextNotLongerThanText => "Subtext Length is larger than Text Length"
  }

  /** The failure a rule reports. */
  function FailureOf(rule: Rule): (f: FluentFailure) {
    FluentFailure(ErrorCode(rule), ErrorMessage(rule))
  }

  /** Different rules report different error codes, so a failure names its rule. */
  lemma FailureOfInjective(a: Rule, b: Rule)
    ensures FailureOf(a).errorCode == FailureOf(b).errorCode ==> a == b
  {
  }

  /** `char.IsWhiteSpace`: the Unicode space, line and paragraph separators
      together with the control characters U+0009 to U+000D and U+0085. */
  predicate IsWhiteSpace(c: char) {
    || '\U{0009}' <= c <= '\U{000D}'
    || c == ' '
    || c == '\U{0085}'
    || c == '\U{00A0}'
    || c == '\U{1680}'
    || '\U{2000}' <= c <= '\U{200A}'
    || c == '\U{2028}'
    || c == '\U{2029}'
    || c == '\U{202F}'
    || c == '\U{205F}'
    || c == '\U{3000}'
  }

  /** `string.IsNullOrWhiteSpace` on a present string: empty, or nothing but white space. */
  predicate IsNullOrWhiteSpace(s: string) {
    forall k :: 0 <= k < |s| ==> IsWhiteSpace(s[k])
  }

  /** The custom length rule: the text is at least as long as the subtext. */
  predicate BeTextLengthLargerThanSubtextLength(text: string, subtext: string) {
    |text| >= |subtext|
  }

  /** Whether one rule holds. The strings are present here, so the two
      not-null rules hold trivially. */
  predicate Passes(rule: Rule, text: string, subtext: string) {
    match rule
    case TextNotNull => true
    case TextNotEmpty => !IsNullOrWhiteSpace(text)
    case SubtextNotNull => true
    case SubtextNotEmpty => !IsNullOrWhiteSpace(subtext)
    case SubtextNotLongerThanText => BeTextLengthLargerThanSubtextLength(text, subtext)
  }

  /** The rules of `rules` that do not hold, in their order in `rules`: every
      rule is run, whatever the others gave. */
  function FailingRules(rules: seq<Rule>, text: string, subtext: string): (r: seq<Rule>) {
    if rules == [] then []
    else (if Passes(rules[0], text, subtext) then [] else [rules[0]])
         + FailingRules(rules[1..], text, subtext)
  }

  /** The failures of a list of rules, one per rule and in the same order. */
  function FailuresOf(rules: seq<Rule>): (r: seq<FluentFailure>)
    ensures |r| == |rules|
    ensures forall k :: 0 <= k < |rules| ==> r[k] == FailureOf(rules[k])
  {
    if rules == [] then [] else [FailureOf(rules[0])] + FailuresOf(rules[1..])
  }

  /** The validator: all five rules, in declaration order. */
  function Validate(text: string, subtext: string): (r: FluentResult) {
    FluentResult(FailuresOf(FailingRules(Rules, text, subtext)))
  }

  /** The rules of a list appear in declaration order, each at most once. */
  ghost predicate InDeclarationOrder(rules: seq<Rule>) {
    forall i, j :: 0 <= i < j < |rules| ==> Order(rules[i]) < Order(rules[j])
  }

  /** Exactly the rules of the list that do not hold are kept. */
  lemma {:induction false} FailingRulesAreTheFailing(rules: seq<Rule>, text: string, subtext: string, rule: Rule)
    ensures rule in FailingRules(rules, text, subtext) <==> rule in rules && !Passes(rule, text, subtext)
  {
    if rules != [] {
      FailingRulesAreTheFailing(rules[1..], text, subtext, rule);
      assert rule in rules <==> rule == rules[0] || rule in rules[1..];
    }
  }

  /** Filtering keeps declaration order. */
  lemma {:induction false} FailingRulesInOrder(rules: seq<Rule>, text: string, subtext: string)
    requires InDeclarationOrder(rules)
    ensures InDeclarationOrder(FailingRules(rules, text, subtext))
  {
    if rules != [] {
      FailingRulesInOrder(rules[1..], text, subtext);
      var tail := FailingRules(rules[1..], text, subtext);
      forall k | 0 <= k < |tail| ensures Order(rules[0]) < Order(tail[k]) {
        FailingRulesAreTheFailing(rules[1..], text, subtext, tail[k]);
        var j :| 0 <= j < |rules[1..]| && rules[1..][j] == tail[k];
        assert rules[j + 1] == tail[k];
      }
    }
  }

  /** The failure list is exactly one fixed code/message pair per failing rule,
      in rule declaration order, and it names every rule that fails. */
  lemma ValidateReportsFailingRulesInOrder(text: string, subtext: string)
    ensures var failing := FailingRules(Rules, text, subtext);
      && InDeclarationOrder(failing)
      && |Validate(text, subtext).errors| == |failing|
      && (forall k :: 0 <= k < |failing| ==>
            Validate(text, subtext).errors[k] == FluentFailure(ErrorCode(failing[k]), ErrorMessage(failing[k])))
      && (forall rule: Rule :: rule in failing <==> !Passes(rule, text, subtext))
  {
    FailingRulesInOrder(Rules, text, subtext);
    var failing := FailingRules(Rules, text, subtext);
    forall rule: Rule ensures rule in failing <==> !Passes(rule, text, subtext) {
      FailingRulesAreTheFailing(Rules, text, subtext, rule);
      assert Rules[Order(rule)] == rule;
    }
  }

  /** The result is valid exactly when every rule holds. */
  lemma ValidateIsValidIff(text: string, subtext: string)
    ensures Validate(text, subtext).IsValid() <==> forall rule: Rule :: Passes(rule, text, subtext)
  {
    ValidateReportsFailingRulesInOrder(text, subtext);
    var failing := FailingRules(Rules, text, subtext);
    if failing != [] {
      assert failing[0] in failing;
    }
  }

  /** The two not-null rules never fire: the validator only sees present strings. */
  lemma NotNullRulesNeverFail(text: string, subtext: string)
    ensures TextNotNull !in FailingRules(Rules, text, subtext)
    ensures SubtextNotNull !in FailingRules(Rules, text, subtext)
  {
    FailingRulesAreTheFailing(Rules, text, subtext, TextNotNull);
    FailingRulesAreTheFailing(Rules, text, subtext, SubtextNotNull);
  }

  /** A valid pair has a text and a subtext that are not empty and not only white space,
      and a subtext no longer than the text. */
  lemma ValidPairIsMatchable(text: string, subtext: string)
    requires Validate(text, subtext).IsValid()
    ensures |text| > 0 && |subtext| > 0 && |subtext| <= |text|
    ensures exists k :: 0 <= k < |text| && !IsWhiteSpace(text[k])
    ensures exists k :: 0 <= k < |subtext| && !IsWhiteSpace(subtext[k])
  {
    ValidateIsValidIff(text, subtext);
    assert Passes(TextNotEmpty, text, subtext);
    assert Passes(SubtextNotEmpty, text, subtext);
    assert Passes(SubtextNotLongerThanText, text, subtext);
  }

  /** One step of the filter. */
  lemma FailingRulesStep(rules: seq<Rule>, text: string, subtext: string)
    requires rules != []
    ensures FailingRules(rules, text, subtext)
         == (if Passes(rules[0], text, subtext) then [] else [rules[0]]) + FailingRules(rules[1..], text, subtext)
  {
  }

  /** The converse: a pair whose strings are not blank and whose subtext is no
      longer than its text is valid. */
  lemma MatchablePairIsValid(text: string, subtext: string)
    requires !IsNullOrWhiteSpace(text) && !IsNullOrWhiteSpace(subtext) && |subtext| <= |text|
    ensures Validate(text, subtext).IsValid()
  {
    ValidateIsValidIff(text, subtext);
    forall rule: Rule ensures Passes(rule, text, subtext) {
    }
  }

  /** The failing rules, one rule at a time: the two not-null rules drop out. */
  lemma FailingRulesUnfolded(text: string, subtext: string)
    ensures FailingRules(Rules, text, subtext)
         == (if Passes(TextNotEmpty, text, subtext) then [] else [TextNotEmpty])
          + (if Passes(SubtextNotEmpty, text, subtext) then [] else [SubtextNotEmpty])
          + (if Passes(SubtextNotLongerThanText, text, subtext) then [] else [SubtextNotLongerThanText])
  {
    var k2 := if Passes(TextNotEmpty, text, subtext) then [] else [TextNotEmpty];
    var k4 := if Passes(SubtextNotEmpty, text, subtext) then [] else [SubtextNotEmpty];
    var k5 := if Passes(SubtextNotLongerThanText, text, subtext) then [] else [SubtextNotLongerThanText];
    var r5 := [SubtextNotLongerThanText];
    var r4 := [SubtextNotEmpty] + r5;
    var r3 := [SubtextNotNull] + r4;
    var r2 := [TextNotEmpty] + r3;
    assert r5[1..] == [] && r4[1..] == r5 && r3[1..] == r4 && r2[1..] == r3 && Rules[1..] == r2;
    FailingRulesStep(r5, text, subtext);
    FailingRulesStep(r4, text, subtext);
    FailingRulesStep(r3, text, subtext);
    FailingRulesStep(r2, text, subtext);
    FailingRulesStep(Rules, text, subtext);
    assert FailingRules(r4, text, subtext) == k4 + k5;
    assert FailingRules(r2, text, subtext) == k2 + (k4 + k5);
  }

  /** The pairs the validator accepts in the unit tests, equal lengths included. */
  lemma AcceptedPairs()
    ensures Validate("ababababa", "aba").IsValid()
    ensures Validate("a", "b").IsValid()
    ensures Validate("asdf", "df").IsValid()
  {
    assert Validate("ababababa", "aba").IsValid() by {
      assert !IsWhiteSpace("ababababa"[0]) && !IsWhiteSpace("aba"[0]);
      MatchablePairIsValid("ababababa", "aba");
    }
    assert Validate("a", "b").IsValid() by {
      assert !IsWhiteSpace("a"[0]) && !IsWhiteSpace("b"[0]);
      MatchablePairIsValid("a", "b");
    }
    assert !IsWhiteSpace("asdf"[0]) && !IsWhiteSpace("df"[0]);
    MatchablePairIsValid("asdf", "df");
  }

  /** Empty and white-space-only strings are rejected; failures of several rules
      are reported together, in declaration order. */
  lemma RejectedEmptyOrBlank()
    ensures FailingRules(Rules, "", "aba") == [TextNotEmpty, SubtextNotLongerThanText]
    ensures FailingRules(Rules, "a", "") == [SubtextNotEmpty]
    ensures FailingRules(Rules, "", "") == [TextNotEmpty, SubtextNotEmpty]
  {
    assert !IsWhiteSpace("aba"[0]) && !IsWhiteSpace("a"[0]);
    FailingRulesUnfolded("", "aba");
    FailingRulesUnfolded("a", "");
    FailingRulesUnfolded("", "");
  }

  lemma RejectedWhiteSpace()
    ensures FailingRules(Rules, " ", "aba") == [TextNotEmpty, SubtextNotLongerThanText]
    ensures FailingRules(Rules, "a", "  ") == [SubtextNotEmpty, SubtextNotLongerThanText]
    ensures FailingRules(Rules, " ", "  ") == [TextNotEmpty, SubtextNotEmpty, SubtextNotLongerThanText]
  {
    assert !IsWhiteSpace("aba"[0]) && !IsWhiteSpace("a"[0]);
    assert IsNullOrWhiteSpace(" ") && IsNullOrWhiteSpace("  ");
    FailingRulesUnfolded(" ", "aba");
    FailingRulesUnfolded("a", "  ");
    FailingRulesUnfolded(" ", "  ");
  }

  /** A subtext longer than the text fails the length rule alone. */
  lemma RejectedLongerSubtext()
    ensures FailingRules(Rules, "aba", "ababababa") == [SubtextNotLongerThanText]
  {
    assert !IsWhiteSpace("aba"[0]) && !IsWhiteSpace("ababababa"[0]);
    FailingRulesUnfolded("aba", "ababababa");
  }
}
