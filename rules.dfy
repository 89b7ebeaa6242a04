/** The rule lists of the string and number validators, and what checking a value against them
    yields. */
module Rules {
  import opened JsValues
  import opened JsStrings
  import opened Patterns

  /** Which of the two primitive validators a rule list belongs to. */
  datatype Kind = StringKind | NumberKind

  /** One entry of a validator's rule list: a pattern and the message reported when the tested
      text does not match it. */
  datatype Rule = Rule(pattern: Pattern, error: string)

  /** The `typeof` a value must have for the validator of this kind. */
  function TypeName(k: Kind): string {
    match k
    case StringKind => "string"
    case NumberKind => "number"
  }

  function TypeMessage(k: Kind): string {
    "An illegal type was passed, '" + TypeName(k) + "' expected."
  }

  /** The exception `validate` raises with message `m`: a `ValidationError` from the string
      validator, a plain `Error` from the number validator. */
  function Failure(k: Kind, m: string): Exception {
    match k
    case StringKind => ValidationError(m)
    case NumberKind => Error(m)
  }

  /** The text the rules are tested against: the string itself, or `value.toString()`. */
  function Subject(k: Kind, v: Value): string
    requires TypeOf(v) == TypeName(k)
  {
    match k
    case StringKind => v.s
    case NumberKind => IntToString(v.n)
  }

  /** The characters the bound rules count: any character but a line terminator for strings,
      decimal digits for numbers. */
  function CountedClass(k: Kind): CharClass {
    match k
    case StringKind => AnyChar
    case NumberKind => DecimalDigit
  }

  // ---------------------------------------------------------------- rules the builders add

  /** The rule `min(n, error)` adds: the text has at least `n` characters, all of the counted class. */
  function MinRule(k: Kind, n: nat, error: string): (r: Rule)
    ensures r.error == error
    ensures forall s, engine :: Matches(r.pattern, s, engine) <==>
      |s| >= n && forall i | 0 <= i < |s| :: InClass(CountedClass(k), s[i])
  {
    Rule(Repeat(CountedClass(k), n, None), error)
  }

  /** The rule `max(n, error)` adds: the text has at most `n` characters, all of the counted class. */
  function MaxRule(k: Kind, n: nat, error: string): (r: Rule)
    ensures r.error == error
    ensures forall s, engine :: Matches(r.pattern, s, engine) <==>
      |s| <= n && forall i | 0 <= i < |s| :: InClass(CountedClass(k), s[i])
  {
    Rule(Repeat(CountedClass(k), 0, Some(n)), error)
  }

  /** The rule `length(n, error)` adds: the text has exactly `n` characters, all of the counted class. */
  function LengthRule(k: Kind, n: nat, error: string): (r: Rule)
    ensures r.error == error
    ensures forall s, engine :: Matches(r.pattern, s, engine) <==>
      |s| == n && forall i | 0 <= i < |s| :: InClass(CountedClass(k), s[i])
  {
    Rule(Repeat(CountedClass(k), n, Some(n)), error)
  }

  /** Default message of `min`. */
  function MinMessage(k: Kind, n: nat): string {
    match k
    case StringKind => "The minimum required length is: " + NatToString(n) + "."
    case NumberKind => "The minimum required length has not been met."
  }

  /** Default message of `max`. */
  function MaxMessage(k: Kind, n: nat): string {
    match k
    case StringKind => "The string exceeds the maximum length: " + NatToString(n) + "."
    case NumberKind => "The string exceeds the maximum allowed length."
  }

  /** Default message of `length`. */
  function LengthMessage(k: Kind, n: nat): string {
    match k
    case StringKind => "The string is not equal to required length: " + NatToString(n) + "."
    case NumberKind => "The string is not equal to required length."
  }

  const EmailMessage := "Email address is invalid"

  const PasswordMessage := "Password must contain at least one lowercase letter, one uppercase letter, one digit, one special character, and be at least 8 characters long"

  // ---------------------------------------------------------------- checking a value

  /** The messages of the rules the text does not match, in rule order. */
  function FailedMessages(rules: seq<Rule>, text: string, engine: Engine): seq<string> {
    if rules == [] then []
    else
      var last := rules[|rules| - 1];
      FailedMessages(rules[..|rules| - 1], text, engine)
        + (if Matches(last.pattern, text, engine) then [] else [last.error])
  }

  /** The positions of the rules the text does not match, in rule order. */
  function FailedPositions(rules: seq<Rule>, text: string, engine: Engine): seq<nat> {
    if rules == [] then []
    else
      FailedPositions(rules[..|rules| - 1], text, engine)
        + (if Matches(rules[|rules| - 1].pattern, text, engine) then [] else [|rules| - 1])
  }

  /** `validateSafely(value)` of a string or number validator. */
  function SafeErrors(k: Kind, rules: seq<Rule>, optional: bool, v: Value, engine: Engine): seq<string> {
    if optional && !Truthy(v) then []
    else if TypeOf(v) != TypeName(k) then [TypeMessage(k)]
    else FailedMessages(rules, Subject(k, v), engine)
  }

  /** `validate(value)` of a string or number validator, in terms of what `validateSafely`
      reports: true when it reports nothing, otherwise the first message it reports, raised. */
  function StrictResult(k: Kind, rules: seq<Rule>, optional: bool, v: Value, engine: Engine): Completion<Value> {
    var errors := SafeErrors(k, rules, optional, v, engine);
    if errors == [] then Normal(Bool(true)) else Throw(Failure(k, errors[0]))
  }

  /** The reported messages are exactly those of the failing rules: one per failing rule, in rule
      order, none for a rule that matches. */
  lemma {:induction false} FailedMessagesAreFailingRules(rules: seq<Rule>, text: string, engine: Engine)
    ensures var pos := FailedPositions(rules, text, engine);
      var msgs := FailedMessages(rules, text, engine);
      |msgs| == |pos|
      && (forall j | 0 <= j < |pos| :: pos[j] < |rules| && msgs[j] == rules[pos[j]].error)
      && (forall j, l | 0 <= j < l < |pos| :: pos[j] < pos[l])
      && (forall i | 0 <= i < |rules| :: i in pos <==> !Matches(rules[i].pattern, text, engine))
  {
    if rules != [] {
      var n := |rules| - 1;
      var init := rules[..n];
      FailedMessagesAreFailingRules(init, text, engine);
      var pos0 := FailedPositions(init, text, engine);
      var msgs0 := FailedMessages(init, text, engine);
      var ok := Matches(rules[n].pattern, text, engine);
      var pos := pos0 + (if ok then [] else [n]);
      var msgs := msgs0 + (if ok then [] else [rules[n].error]);
      assert FailedPositions(rules, text, engine) == pos;
      assert FailedMessages(rules, text, engine) == msgs;
      forall j | 0 <= j < |pos|
        ensures pos[j] < |rules| && msgs[j] == rules[pos[j]].error
      {
        if j < |pos0| {
          assert pos[j] == pos0[j] && msgs[j] == msgs0[j];
          assert init[pos0[j]] == rules[pos0[j]];
        }
      }
      forall i | 0 <= i < |rules|
        ensures i in pos <==> !Matches(rules[i].pattern, text, engine)
      {
        if i < n {
          assert init[i] == rules[i];
          assert i in pos <==> i in pos0;
        } else {
          assert n !in pos0;
        }
      }
    }
  }

  /** The messages for a prefix of the rules are a prefix of the messages for all of them. */
  lemma {:induction false} FailedMessagesOfPrefix(rules: seq<Rule>, k: nat, text: string, engine: Engine)
    requires k <= |rules|
    ensures FailedMessages(rules[..k], text, engine) <= FailedMessages(rules, text, engine)
  {
    if k < |rules| {
      var init := rules[..|rules| - 1];
      FailedMessagesOfPrefix(init, k, text, engine);
      assert init[..k] == rules[..k];
    } else {
      assert rules[..k] == rules;
    }
  }

  /** When the rules before position `i` all match and rule `i` does not, the first message
      reported is rule `i`'s. */
  lemma FirstFailedMessage(rules: seq<Rule>, i: nat, text: string, engine: Engine)
    requires i < |rules|
    requires FailedMessages(rules[..i], text, engine) == []
    requires !Matches(rules[i].pattern, text, engine)
    ensures FailedMessages(rules, text, engine) != []
    ensures FailedMessages(rules, text, engine)[0] == rules[i].error
  {
    FailedMessagesOfPrefix(rules, i + 1, text, engine);
    assert rules[..i + 1][..i] == rules[..i];
    assert FailedMessages(rules[..i + 1], text, engine) == [rules[i].error];
  }

  /** Nothing is reported exactly when every rule matches. */
  lemma NoFailuresIffAllMatch(rules: seq<Rule>, text: string, engine: Engine)
    ensures FailedMessages(rules, text, engine) == [] <==>
      forall i | 0 <= i < |rules| :: Matches(rules[i].pattern, text, engine)
  {
    FailedMessagesAreFailingRules(rules, text, engine);
    var pos := FailedPositions(rules, text, engine);
    if exists i | 0 <= i < |rules| :: !Matches(rules[i].pattern, text, engine) {
      var i :| 0 <= i < |rules| && !Matches(rules[i].pattern, text, engine);
      assert i in pos;
    }
  }

  /** A rule added to the end of the list can only add its own message, after all the others. */
  lemma AddedRuleReportsLast(rules: seq<Rule>, r: Rule, text: string, engine: Engine)
    ensures FailedMessages(rules + [r], text, engine) ==
      FailedMessages(rules, text, engine) + (if Matches(r.pattern, text, engine) then [] else [r.error])
  {
    assert (rules + [r])[..|rules|] == rules;
  }

  /** The rule `NumberValidator.regex` appends as the code is written, on the stored text
      `pattern.toString()`: for an expression anchored at the start, whatever number is checked,
      the rule reports its message after the messages of the earlier rules. */
  lemma NumberRegexAsWrittenAlwaysReports(rules: seq<Rule>, pattern: RegExp, error: string, v: int, engine: Engine)
    requires SlashThenAnchorNeverMatches(engine)
    requires ValidFlags(pattern.flags)
    requires 0 < |pattern.source| && pattern.source[0] == '^' && '|' !in pattern.source
    ensures SafeErrors(NumberKind, rules + [Rule(Source(NumberStoredSourceAsWritten(pattern)), error)], false, Num(v), engine)
      == SafeErrors(NumberKind, rules, false, Num(v), engine) + [error]
  {
    var text := NumberStoredSourceAsWritten(pattern);
    assert text[0] == '/' && text[1] == '^';
    assert '|' !in text by {
      assert text == "/" + pattern.source + "/" + pattern.flags;
      forall i | 0 <= i < |pattern.flags|
        ensures pattern.flags[i] != '|'
      {
        assert pattern.flags[i] in "dgimsuvy";
      }
    }
    assert !engine(text, IntToString(v));
    AddedRuleReportsLast(rules, Rule(Source(text), error), IntToString(v), engine);
  }

  /** The rule `NumberValidator.regex` was evidently meant to append, on the expression's source
      as the string validator stores it: the number's digits are handed to the engine with that
      source, and the message is reported exactly when the engine finds no match. */
  lemma NumberRegexIntendedTestsSource(rules: seq<Rule>, pattern: RegExp, error: string, v: int, engine: Engine)
    requires ValidFlags(pattern.flags)
    ensures SafeErrors(NumberKind, rules + [Rule(Source(StoredSource(pattern)), error)], false, Num(v), engine)
      == SafeErrors(NumberKind, rules, false, Num(v), engine)
        + (if engine(pattern.source, IntToString(v)) then [] else [error])
  {
    StoredSourceIsSource(pattern);
    AddedRuleReportsLast(rules, Rule(Source(pattern.source), error), IntToString(v), engine);
  }

  /** Leaving the value out passes exactly when the validator was marked optional; otherwise it
      is reported as the wrong type, and nothing else is reported. */
  lemma AbsentValueIffOptional(k: Kind, rules: seq<Rule>, optional: bool, engine: Engine)
    ensures SafeErrors(k, rules, optional, Undefined, engine) == (if optional then [] else [TypeMessage(k)])
    ensures StrictResult(k, rules, optional, Undefined, engine).Normal? <==> optional
  {
  }

  /** An optional validator passes every falsy value of its own type without checking its rules:
      the empty string, and the number 0. */
  lemma OptionalSkipsFalsyOfOwnType(rules: seq<Rule>, engine: Engine)
    ensures SafeErrors(StringKind, rules, true, Str(""), engine) == []
    ensures SafeErrors(NumberKind, rules, true, Num(0), engine) == []
  {
  }

  /** A value of the wrong type (that is not skipped as optional) gets the type message alone;
      `validate` raises it. */
  lemma WrongTypeReportsOnlyType(k: Kind, rules: seq<Rule>, optional: bool, v: Value, engine: Engine)
    requires !optional || Truthy(v)
    requires TypeOf(v) != TypeName(k)
    ensures SafeErrors(k, rules, optional, v, engine) == [TypeMessage(k)]
    ensures StrictResult(k, rules, optional, v, engine) == Throw(Failure(k, TypeMessage(k)))
  {
  }

  /** For a non-negative number the bound rules count its decimal digits. */
  lemma NumberBoundsCountDigits(v: nat, n: nat, error: string, engine: Engine)
    ensures Matches(MinRule(NumberKind, n, error).pattern, IntToString(v), engine) <==> DigitCount(v) >= n
    ensures Matches(MaxRule(NumberKind, n, error).pattern, IntToString(v), engine) <==> DigitCount(v) <= n
    ensures Matches(LengthRule(NumberKind, n, error).pattern, IntToString(v), engine) <==> DigitCount(v) == n
  {
    NatToStringDigits(v);
  }

  /** A negative number fails every bound rule of the number validator, whatever the bound: its
      text starts with a minus sign. */
  lemma NegativeNumberFailsBounds(v: int, n: nat, error: string, engine: Engine)
    requires v < 0
    ensures !Matches(MinRule(NumberKind, n, error).pattern, IntToString(v), engine)
    ensures !Matches(MaxRule(NumberKind, n, error).pattern, IntToString(v), engine)
    ensures !Matches(LengthRule(NumberKind, n, error).pattern, IntToString(v), engine)
  {
    assert IntToString(v)[0] == '-';
  }
}
