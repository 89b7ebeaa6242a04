/** The validators' documented usage, replayed on the model: each method builds validators with
    the factory and the chained builders and states what validating a fixed value gives. */
module Scenarios {
  import opened JsValues
  import opened JsStrings
  import opened Patterns
  import opened Rules
  import opened Schema
  import opened Validators

  const Username := "popHero83"

  /** The name has no line terminator, so every bound rule of the string validator counts all of
      its characters. */
  lemma UsernameOnOneLine()
    ensures forall i | 0 <= i < |Username| :: InClass(AnyChar, Username[i])
  {
    AllCharsByRecursion("popHe", IsCountedChar);
    AllCharsByRecursion("ro83", IsCountedChar);
    AllCharsJoined("popHe", "ro83", IsCountedChar);
    assert "popHe" + "ro83" == Username;
  }

  predicate IsCountedChar(c: char) { InClass(AnyChar, c) }

  const MinTenMessage := "The minimum required length is: 10."

  /** `Validator.string().min(10)` on a nine-character name: one message, which `validate`
      raises as a `ValidationError`. */
  method MinimumNotMet(engine: Engine) returns (errors: seq<string>, outcome: Completion<Value>)
    ensures errors == [MinTenMessage]
    ensures outcome == Throw(ValidationError(MinTenMessage))
  {
    assert NatToString(10) == "10";
    assert MinMessage(StringKind, 10) == MinTenMessage;
    var schema := Validator.String();
    schema := schema.Min(10);
    var r := MinRule(StringKind, 10, MinTenMessage);
    assert schema.rules == [r];
    assert !Matches(r.pattern, Username, engine);
    assert FailedMessages([r], Username, engine) == [MinTenMessage];
    errors := schema.ValidateSafely(Str(Username), engine);
    outcome := schema.Validate(Str(Username), engine);
  }

  /** The same validator given the number 33: the type message alone, and `validate` raises. */
  method IllegalType(engine: Engine) returns (errors: seq<string>, outcome: Completion<Value>)
    ensures errors == ["An illegal type was passed, 'string' expected."]
    ensures outcome.Throw?
  {
    assert TypeMessage(StringKind) == "An illegal type was passed, 'string' expected.";
    var schema := Validator.String();
    schema := schema.Min(10);
    errors := schema.ValidateSafely(Num(33), engine);
    outcome := schema.Validate(Num(33), engine);
  }

  /** `min(5)` accepts the nine-character name. */
  method MinimumMet(engine: Engine) returns (errors: seq<string>, outcome: Completion<Value>)
    ensures errors == [] && outcome == Normal(Bool(true))
  {
    UsernameOnOneLine();
    var schema := Validator.String();
    schema := schema.Min(5);
    var r := MinRule(StringKind, 5, MinMessage(StringKind, 5));
    assert schema.rules == [r];
    assert r.pattern == Repeat(AnyChar, 5, None);
    assert RepeatTest(AnyChar, 5, None, Username);
    assert FailedMessages([r], Username, engine) == [];
    errors := schema.ValidateSafely(Str(Username), engine);
    outcome := schema.Validate(Str(Username), engine);
  }

  /** `max(10)` accepts the nine-character name and reports one message for a fourteen-character
      string. */
  method MaximumChecks(engine: Engine) returns (errors: seq<string>, longErrors: seq<string>)
    ensures errors == [] && |longErrors| == 1
  {
    UsernameOnOneLine();
    var long := "1234567890Hero";
    var schema := Validator.String();
    schema := schema.Max(10);
    var r := MaxRule(StringKind, 10, MaxMessage(StringKind, 10));
    assert schema.rules == [r];
    assert r.pattern == Repeat(AnyChar, 0, Some(10));
    assert RepeatTest(AnyChar, 0, Some(10), Username);
    assert FailedMessages([r], Username, engine) == [];
    assert !Matches(r.pattern, long, engine);
    assert FailedMessages([r], long, engine) == [r.error];
    errors := schema.ValidateSafely(Str(Username), engine);
    longErrors := schema.ValidateSafely(Str(long), engine);
  }

  /** `email()` rejects a string without an `@` and accepts "mail@mail.co". */
  method EmailChecks(engine: Engine) returns (bad: seq<string>, good: seq<string>, goodOutcome: Completion<Value>)
    ensures bad == ["Email address is invalid"]
    ensures good == [] && goodOutcome == Normal(Bool(true))
  {
    EmailTestVectors();
    var schema := Validator.String();
    schema := schema.Email();
    var r := Rule(EmailPattern, EmailMessage);
    assert schema.rules == [r];
    assert FailedMessages([r], "1234567890Hero", engine) == [EmailMessage];
    assert FailedMessages([r], "mail@mail.co", engine) == [];
    bad := schema.ValidateSafely(Str("1234567890Hero"), engine);
    good := schema.ValidateSafely(Str("mail@mail.co"), engine);
    goodOutcome := schema.Validate(Str("mail@mail.co"), engine);
  }

  /** `password()` rejects "password" with its message and accepts "P4sswd@8909". */
  method PasswordChecks(engine: Engine) returns (bad: seq<string>, badOutcome: Completion<Value>, good: seq<string>)
    ensures bad == [PasswordMessage] && badOutcome == Throw(ValidationError(PasswordMessage))
    ensures good == []
  {
    PasswordRejectsTestVector();
    PasswordAcceptsTestVector();
    var schema := Validator.String();
    schema := schema.Password();
    var r := Rule(PasswordPattern, PasswordMessage);
    assert schema.rules == [r];
    assert FailedMessages([r], "password", engine) == [PasswordMessage];
    assert FailedMessages([r], "P4sswd@8909", engine) == [];
    bad := schema.ValidateSafely(Str("password"), engine);
    badOutcome := schema.Validate(Str("password"), engine);
    good := schema.ValidateSafely(Str("P4sswd@8909"), engine);
  }

  /** As the code is written, `email()` lets through an address with no dot before its top-level
      domain. */
  method EmailWithoutDot(engine: Engine) returns (errors: seq<string>)
    ensures errors == []
  {
    EmailAsWrittenAcceptsHostcom();
    var schema := Validator.String();
    schema := schema.Email();
    var r := Rule(EmailPattern, EmailMessage);
    assert schema.rules == [r];
    assert FailedMessages([r], "user@hostcom", engine) == [];
    errors := schema.ValidateSafely(Str("user@hostcom"), engine);
  }

  /** `Validator.string().password()` on any text reports its message exactly when the pattern
      as the code writes it does not match. */
  method PasswordOn(text: string, engine: Engine) returns (errors: seq<string>)
    ensures errors == if PasswordTestAsWritten(text) then [] else [PasswordMessage]
  {
    var schema := Validator.String();
    schema := schema.Password();
    var r := Rule(PasswordPattern, PasswordMessage);
    assert schema.rules == [r];
    assert FailedMessages([r], text, engine) == if PasswordTestAsWritten(text) then [] else [PasswordMessage];
    errors := schema.ValidateSafely(Str(text), engine);
  }

  /** As the code is written, `password()` accepts "Password", which has no digit. */
  method PasswordWithoutDigit(engine: Engine) returns (errors: seq<string>)
    ensures errors == []
  {
    PasswordAsWrittenNeedsNoDigit();
    errors := PasswordOn("Password", engine);
  }

  /** As the code is written, `password()` rejects "Abcefgh1", which meets the documented rule
      but has no letter `d`. */
  method PasswordWithoutLetterD(engine: Engine) returns (errors: seq<string>)
    ensures errors == [PasswordMessage]
  {
    PasswordAsWrittenNeedsLetterD();
    errors := PasswordOn("Abcefgh1", engine);
  }

  /** `regex(/[a-z]{10}/, message)` hands the source "[a-z]{10}" to the engine and reports the
      message exactly when the engine finds no match. */
  method RegexCheck(engine: Engine) returns (errors: seq<string>)
    ensures errors == if engine("[a-z]{10}", "password") then [] else ["Allowed character are [a-z], max length is 10 chars"]
  {
    StoredSourceIsSource(RegExp("[a-z]{10}", ""));
    var schema := Validator.String();
    schema := schema.Regex(RegExp("[a-z]{10}", ""), "Allowed character are [a-z], max length is 10 chars");
    var r := Rule(Source("[a-z]{10}"), "Allowed character are [a-z], max length is 10 chars");
    assert schema.rules == [r];
    assert FailedMessages([r], "password", engine) == if engine("[a-z]{10}", "password") then [] else [r.error];
    errors := schema.ValidateSafely(Str("password"), engine);
  }

  /** The wrapper `optional()` returns shares its validator: a rule added afterwards is applied
      through the wrapper, and the value is skipped when falsy. */
  method WrapperSeesLaterRules(value: Value, engine: Engine) returns (viaWrapper: Completion<SafeResult>, direct: seq<string>)
    ensures viaWrapper == Normal(Messages(direct))
    ensures direct == SafeErrors(StringKind, [MinRule(StringKind, 3, MinMessage(StringKind, 3))], true, value, engine)
  {
    var name := Validator.String();
    var wrapper := name.Optional();
    name := name.Min(3);
    assert name.rules == [MinRule(StringKind, 3, MinMessage(StringKind, 3))];
    viaWrapper := wrapper.ValidateSafely(value, engine);
    direct := name.ValidateSafely(value, engine);
  }

  const MinThreeMessage := "The minimum required length is: 3."

  const NameAge := ObjectOf([
    ("name", Primitive(StringKind, [MinRule(StringKind, 3, MinThreeMessage)], false)),
    ("age", OptionalOf(Primitive(NumberKind, [], true)))])

  const ShortName := Obj(map["name" := Str("ab")])

  /** The schema semantics of a required name of at least three characters and an optional age,
      on an object with a two-character name and no age. */
  lemma NameAgeOnShortName(engine: Engine)
    ensures ObjectSafe(NameAge, ShortName, engine) == Normal(map["name" := Messages([MinThreeMessage])])
    ensures ObjectStrict(NameAge, ShortName, engine) == Throw(ValidationError(MinThreeMessage))
  {
    var n := NameAge;
    var value := ShortName;
    var r := MinRule(StringKind, 3, MinThreeMessage);
    var nameNode := n.fields[0].1;
    var ageNode := n.fields[1].1;
    assert Field(value, "name") == Str("ab") && Field(value, "age") == Undefined;
    assert FailedMessages([r], "ab", engine) == [MinThreeMessage];
    assert FieldSafe("name", nameNode, value, engine) == Normal(Some(Messages([MinThreeMessage])));
    assert FieldSafe("age", ageNode, value, engine) == Normal(None);
    assert FieldsSafe(n, 1, value, engine) == Normal(map["name" := Messages([MinThreeMessage])]);
    assert FieldStrict("name", nameNode, value, engine) == Throw(ValidationError(MinThreeMessage));
    assert FieldsStrict(n, 1, value, engine) == Throw(ValidationError(MinThreeMessage));
  }

  const Nested := ObjectOf([("inner", NameAge)])

  /** A nested object validator's failures are dropped from its parent's report, since the
      nested report has no `length`, although `validate` raises the nested message. */
  lemma NestedFailureDropped(engine: Engine)
    ensures ObjectSafe(Nested, Obj(map["inner" := ShortName]), engine) == Normal(map[])
    ensures ObjectStrict(Nested, Obj(map["inner" := ShortName]), engine) == Throw(ValidationError(MinThreeMessage))
  {
    var value := Obj(map["inner" := ShortName]);
    assert Field(value, "inner") == ShortName;
    NameAgeOnShortName(engine);
    var report := Report(map["name" := Messages([MinThreeMessage])]);
    assert Safe(NameAge, ShortName, engine) == Normal(report);
    assert "length" !in report.errors;
    assert FieldSafe("inner", NameAge, value, engine) == Normal(None);
    assert FieldsSafe(Nested, 1, value, engine) == Normal(map[]);
    assert FieldStrict("inner", NameAge, value, engine) == Throw(ValidationError(MinThreeMessage));
    assert FieldsStrict(Nested, 1, value, engine) == Throw(ValidationError(MinThreeMessage));
  }

  const LengthKeyed := ObjectOf([("inner", ObjectOf([("length", Primitive(StringKind, [MinRule(StringKind, 3, "5")], false))]))])

  /** A nested schema with a key `length` whose message reads as a positive number: the nested
      report `{length: ["5"]}` has a `length` that is greater than 0, so it is recorded. */
  lemma NestedLengthKeyRecorded(engine: Engine)
    ensures ObjectSafe(LengthKeyed, Obj(map["inner" := Obj(map["length" := Str("ab")])]), engine)
      == Normal(map["inner" := Report(map["length" := Messages(["5"])])])
  {
    var innerValue := Obj(map["length" := Str("ab")]);
    var value := Obj(map["inner" := innerValue]);
    var inner := LengthKeyed.fields[0].1;
    var r := MinRule(StringKind, 3, "5");
    assert Field(value, "inner") == innerValue && Field(innerValue, "length") == Str("ab");
    assert FailedMessages([r], "ab", engine) == ["5"];
    assert FieldsSafe(inner, 1, innerValue, engine) == Normal(map["length" := Messages(["5"])]);
    TrimShape("5");
    assert AllChars("5", IsDigit);
    assert DigitsValue("5", 10) == 5;
    assert Join(["5"], ",") == "5";
    assert LengthIsPositive(Report(map["length" := Messages(["5"])]));
  }

  /** A nested `length` message in hexadecimal also reads as a positive number, so a nested report
      `{length: ["0x5"]}` is recorded; one of two messages, or one reading as 0, is not. */
  lemma NestedLengthReadAsNumber()
    ensures LengthIsPositive(Report(map["length" := Messages(["0x5"])]))
    ensures !LengthIsPositive(Report(map["length" := Messages(["0x0"])]))
    ensures !LengthIsPositive(Report(map["length" := Messages(["5", "5"])]))
  {
    StringToNumberExamples();
    assert Join(["0x5"], ",") == "0x5" && Join(["0x0"], ",") == "0x0";
    TrimShape("0x0");
    assert "0x0"[2..] == "0" && DigitsValue("0", 16) == 0;
    if LengthIsPositive(Report(map["length" := Messages(["5", "5"])])) {
      ReportLengthIsOneMessage(map["length" := Messages(["5", "5"])]);
    }
  }

  /** The same schema built with the factory: a short name is reported under its key, the missing
      optional age is not reported, and `validate` raises the name's message. */
  method ObjectReport(engine: Engine) returns (report: Completion<map<string, SafeResult>>, outcome: Completion<Value>)
    ensures report == Normal(map["name" := Messages([MinThreeMessage])])
    ensures outcome == Throw(ValidationError(MinThreeMessage))
  {
    assert NatToString(3) == "3";
    assert MinMessage(StringKind, 3) == MinThreeMessage;
    var name := Validator.String();
    name := name.Min(3);
    var age := Validator.Number();
    var optionalAge := age.Optional();
    var schema := Validator.Object([("name", StringEntry(name)), ("age", OptionalEntry(optionalAge))]);
    report := schema.ValidateSafely(ShortName, engine);
    outcome := schema.Validate(ShortName, engine);
    ghost var n := schema.Snapshot();
    assert name.rules == [MinRule(StringKind, 3, MinThreeMessage)] && !name.isOptional;
    assert schema.schema[0].1 == StringEntry(name);
    assert EntryNode(StringEntry(name)) == name.Snapshot();
    assert n.fields[0] == NameAge.fields[0];
    assert n.fields[1] == NameAge.fields[1];
    assert n == NameAge;
    NameAgeOnShortName(engine);
  }

  /** A bare self-reference in a schema stops both methods with "Invalid validator object.". */
  method SelfRefInSchema(engine: Engine) returns (report: Completion<map<string, SafeResult>>, outcome: Completion<Value>)
    ensures report == Throw(Error(InvalidValidatorMessage))
    ensures outcome == Throw(Error(InvalidValidatorMessage))
  {
    var next := new SelfRefValidator("next", "not a node");
    var schema := Validator.Object([("next", SelfRefEntry(next))]);
    report := schema.ValidateSafely(Obj(map[]), engine);
    outcome := schema.Validate(Obj(map[]), engine);
    ghost var n := schema.Snapshot();
    assert n.fields[0] == ("next", SelfRef("next", "not a node", false));
    assert FieldSafe("next", n.fields[0].1, Obj(map[]), engine) == Throw(Error(InvalidValidatorMessage));
    assert FieldsSafe(n, 1, Obj(map[]), engine) == Throw(Error(InvalidValidatorMessage));
    assert FieldStrict("next", n.fields[0].1, Obj(map[]), engine) == Throw(Error(InvalidValidatorMessage));
    assert FieldsStrict(n, 1, Obj(map[]), engine) == Throw(Error(InvalidValidatorMessage));
  }
}
