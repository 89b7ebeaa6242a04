# d3vtool-utils, modelled in Dafny

d3vtool-utils is a small TypeScript utility library. This project models its four parts and
proves properties of the model:

- **Validators.** `Validator.string()`, `Validator.number()` and `Validator.object(schema)` build
  validators. The string and number validators collect regular-expression rules through chained
  builders (`min`, `max`, `length`, `email`, `password`, `regex`) and can be made `optional()`.
  `validateSafely` returns the messages of the failing rules; `validate` raises the first one.
  Object validators walk a schema of nested validators. A `SelfRefValidator` in a schema is a
  placeholder. `VInfer` is the TypeScript type a schema describes.
- **String utilities.** Title, snake, camel, pascal and kebab case; the one-character
  upper-case and lower-case tests; alternate casing.
- **MIME lookup.** `getMimeType(extension)` reads a fixed table of 55 extensions and falls back
  to `text/plain`.
- **JWT.** `signJwt` produces an HS256/HS384/HS512 token from required claims (`iat`, `exp`, `aud`,
  `sub`, `iss`) and custom claims. `verifyJwt` checks the token's structure, header algorithm,
  expiry and signature, in that order. `createExpiry` turns a duration such as `"1h"` into a
  timestamp. The library's `exp` and `iat` are milliseconds since the epoch, not the seconds of
  section 4.1.4 of RFC 7519, and the model keeps its milliseconds.

The modules are:

- `JsValues`: JavaScript values, exceptions, and completions (a normal result or a throw).
- `JsStrings`: the string built-ins the library calls.
- `Patterns`: the validators' fixed regular expressions as predicates.
- `Rules`: the rules the builders add and what the string and number validators report.
- `Schema`: the pure semantics of object schemas, and `VInfer`.
- `Validators`: the validator classes, with their mutable fields, and the factory.
- `Scenarios`: the validator tests, replayed on the class model.
- `StringUtils` and `StringUtilsExamples`: the string utilities and their tests.
- `Mime`: the MIME lookup.
- `Jwt`: the JWT control logic.

Where the code as written does something other than what it evidently means (see Findings),
the validator classes follow the code as written: the email and password rules test the pattern
strings as the string literals leave them, and the number validator's `regex` stores
`pattern.toString()`. The intended readings are modelled beside them (`Patterns.EmailTest`,
`Patterns.PasswordTest`, `Rules.NumberRegexIntendedTestsSource`), with lemmas on where the two
differ. For `signJwt` it is the other way round: `Jwt.SignJwt` is the intended behaviour, which
the tests expect, and `Jwt.SignJwtAsWritten` is the code; the two differ only when a required
claim is missing.

Builder methods change the validator in place, as the source's `this`-returning methods do.
`validateSafely` and `validate` are proved to return exactly what the pure semantics in `Rules`
and `Schema` gives for a snapshot of the validator graph, so the lemmas proved there apply to
the live validators.

Things outside the library become parameters:

- User-supplied regular expressions are an `engine` function: `engine(p, s)` is
  `new RegExp(p).test(s)`.
- JWT's cryptography, base64url and JSON are a `Codec` of functions. The laws the proofs rely on
  are stated as one predicate, `Jwt.Lawful`.
- The clock is a `now` argument.

## Model

| member | source | states |
|---|---|---|
| JsStrings.LineTerminatorIsWhiteSpace | src/utils/jwt/jwt.ts:246 | every line terminator is also white space that `trim` removes |
| JsStrings.ToLowerIdempotent | src/utils/string-utils/index.ts:22 | lower-casing twice is lower-casing once |
| JsStrings.ToLowerShape | src/utils/string-utils/index.ts:22 | `toLowerCase` keeps the length and maps each character on its own |
| JsStrings.NatToStringDigits | src/utils/validator/NumberValidator.ts:73 | `n.toString()` is exactly DigitCount(n) decimal digits without a leading zero |
| JsStrings.Split | src/utils/string-utils/index.ts:11 | `split` always returns at least one part |
| JsStrings.JoinSplit | src/utils/string-utils/index.ts:11-15 | joining the parts of a split with the same separator gives the string back, and no part contains the separator |
| JsStrings.SplitWithoutSeparator | src/utils/string-utils/index.ts:30 | a string without the separator splits into itself alone |
| JsStrings.SplitAfterPart | src/utils/string-utils/index.ts:30 | a separator-free part followed by the separator becomes the first part of the split |
| JsStrings.TrimShape | src/utils/jwt/jwt.ts:246 | `trim` leaves no white space at either end, and leaves a string already without it unchanged |
| JsStrings.TrimStartShape | src/utils/jwt/jwt.ts:246 | the start trimmed has no leading white space and is unchanged when there was none |
| JsStrings.TrimEndShape | src/utils/jwt/jwt.ts:246 | the end trimmed has no trailing white space and is unchanged when there was none |
| JsStrings.TrimEndIsPrefix | src/utils/jwt/jwt.ts:246 | trimming the end leaves a prefix of the string |
| JsStrings.ClampIndex | src/utils/validator/StringValidator.ts:78 | the index `slice` uses is within the string and equals the argument when that is in range |
| JsStrings.LastIndexOf | src/utils/validator/StringValidator.ts:78 | `lastIndexOf` gives the last position of the character, or -1 exactly when it does not occur |
| JsStrings.DigitPrefixLength | src/utils/jwt/jwt.ts:79 | the run `parseInt` reads is the longest prefix of digits of the radix |
| JsStrings.DigitsValueOfNatToString | src/utils/jwt/jwt.ts:79 | reading the decimal text of n gives n back |
| JsStrings.ParseIntOfNatToString | src/utils/jwt/jwt.ts:79 | `parseInt` of a number's text followed by a non-digit suffix gives the number |
| JsStrings.DigitPrefixOfDigits | src/utils/jwt/jwt.ts:79 | the digit run of digits followed by a non-digit is exactly those digits |
| JsStrings.TrimStartKeeps | src/utils/jwt/jwt.ts:246 | trimming the start keeps every character that is not white space |
| JsStrings.TrimEndKeeps | src/utils/jwt/jwt.ts:246 | trimming the end keeps every character that is not white space |
| JsStrings.NonNumericCharMakesNaN | src/utils/validator/ObjectValidator.ts:28 | `Number` of a text with a character that is not white space, an ASCII letter or digit, a sign or a dot (a comma, say) is NaN |
| JsStrings.StringToNumberExamples | src/utils/validator/ObjectValidator.ts:28 | `Number` reads "0x5" as 5, "0B11" as 3 and "0o17" as 15, and "-0x5" and "0x" as NaN |
| JsStrings.StringToNumberDecimalExamples | src/utils/jwt/jwt.ts:333 | `Number` reads " -42 " as -42 and "" as 0 |
| Patterns.EmailAccepts | src/utils/validator/StringValidator.ts:44-53 | the intended email pattern accepts letter-led local part, `@`, letters-or-hyphens domain, `.`, two or more letters |
| Patterns.EmailShape | src/utils/validator/StringValidator.ts:44-53 | an address the intended pattern accepts has exactly one `@`, a dot followed only by letters, and ends in two letters |
| Patterns.EmailAsWrittenAccepts | src/utils/validator/StringValidator.ts:48 | the pattern as written also accepts any local characters from `%` to `_` and any non-line-terminator where the dot should be |
| Patterns.EmailTestVectors | tests/validator/index.test.ts:85-116 | "mail@mail.co" is accepted and "1234567890Hero" rejected, by the pattern as written and by the intended one |
| Patterns.EmailRejectsTwoAts | src/utils/validator/StringValidator.ts:48 | the intended pattern rejects any string with two `@` |
| Patterns.EmailAsWrittenAcceptsNoDot | src/utils/validator/StringValidator.ts:48 | "user@hostcom" passes the pattern as written and fails the intended one |
| Patterns.EmailRejectsHostcom | src/utils/validator/StringValidator.ts:48 | the intended pattern rejects "user@hostcom" |
| Patterns.EmailAsWrittenAcceptsHostcom | src/utils/validator/StringValidator.ts:48 | the pattern as written accepts "user@hostcom" |
| Patterns.EmailRejectsNoDot | src/utils/validator/StringValidator.ts:48 | the intended pattern rejects every string without a dot |
| Patterns.EmailAsWrittenAcceptsTwoAts | src/utils/validator/StringValidator.ts:48 | "a@b@c.de" passes the pattern as written and fails the intended one |
| Patterns.LooksAheadOnSingleLine | src/utils/validator/StringValidator.ts:58 | on a single line, a `(?=.*x)` lookahead holds exactly when some character is in x |
| Patterns.PasswordMeaning | src/utils/validator/StringValidator.ts:55-66 | the intended password pattern accepts exactly single-line strings of 8 or more characters with a digit, a lower-case and an upper-case letter |
| Patterns.PasswordAsWrittenMeaning | src/utils/validator/StringValidator.ts:58 | the pattern as written accepts exactly single-line strings of 8 or more characters with a letter `d` and an upper-case letter |
| Patterns.PasswordRejectsTestVector | tests/validator/index.test.ts:118-149 | "password" is rejected |
| Patterns.PasswordAcceptsTestVector | tests/validator/index.test.ts:118-149 | "P4sswd@8909" is accepted |
| Patterns.PasswordAsWrittenNeedsNoDigit | src/utils/validator/StringValidator.ts:58 | "Password" passes the pattern as written but has no digit |
| Patterns.PasswordAsWrittenNeedsLetterD | src/utils/validator/StringValidator.ts:58 | "Abcefgh1" meets the documented rule but fails the pattern as written |
| Patterns.StoredSourceIsSource | src/utils/validator/StringValidator.ts:77-78 | slicing `toString()` between the first and the last slash gives back the expression's source |
| Patterns.NumberStoredSourceAsWrittenDiffers | src/utils/validator/NumberValidator.ts:48-58 | the number validator's stored `toString()` is never the source: "^[0-9]{3}$" is stored as "/^[0-9]{3}$/" |
| Rules.MinRule | src/utils/validator/StringValidator.ts:10-19 | the rule matches exactly the texts of at least n characters of the counted class |
| Rules.MaxRule | src/utils/validator/StringValidator.ts:21-30 | the rule matches exactly the texts of at most n characters of the counted class |
| Rules.LengthRule | src/utils/validator/StringValidator.ts:32-42 | the rule matches exactly the texts of n characters of the counted class |
| Rules.FailedMessagesAreFailingRules | src/utils/validator/StringValidator.ts:99-104 | the messages are one per failing rule, in rule order, and none for a matching rule |
| Rules.FailedMessagesOfPrefix | src/utils/validator/StringValidator.ts:99-104 | the messages of the first k rules are a prefix of all the messages |
| Rules.FirstFailedMessage | src/utils/validator/StringValidator.ts:116-120 | the first reported message is that of the first failing rule, which `validate` raises |
| Rules.NoFailuresIffAllMatch | src/utils/validator/StringValidator.ts:99-106 | nothing is reported exactly when every rule matches |
| Rules.AddedRuleReportsLast | src/utils/validator/StringValidator.ts:14-17 | a rule added by a builder contributes its message after all earlier ones |
| Rules.AbsentValueIffOptional | src/utils/validator/StringValidator.ts:88-97 | `undefined` is accepted exactly when the validator is optional, and otherwise gets the type message |
| Rules.OptionalSkipsFalsyOfOwnType | src/utils/validator/NumberValidator.ts:60-64 | an optional validator skips "" and 0 whatever its rules |
| Rules.WrongTypeReportsOnlyType | src/utils/validator/NumberValidator.ts:66-69 | a value of the wrong type gets the type message alone, and `validate` raises it |
| Rules.NumberBoundsCountDigits | src/utils/validator/NumberValidator.ts:9-41 | on a non-negative number, min, max and length compare its count of decimal digits |
| Rules.NegativeNumberFailsBounds | src/utils/validator/NumberValidator.ts:71-75 | a negative number fails every min, max and length rule, because of its minus sign |
| Rules.NumberRegexAsWrittenAlwaysReports | src/utils/validator/NumberValidator.ts:48-75 | the rule `regex` stores as written, for an expression anchored with `^`, reports its message on every number, after the earlier rules' messages |
| Rules.NumberRegexIntendedTestsSource | src/utils/validator/StringValidator.ts:77-78 | the rule on the expression's source hands the number's digits to the engine with that source and reports exactly when it finds no match |
| Schema.FieldsSafeNormalIff | src/utils/validator/ObjectValidator.ts:19-30 | the schema walk completes exactly when no key's check throws |
| Schema.FieldsSafeStep | src/utils/validator/ObjectValidator.ts:19-30 | a completed step of the loop adds the key's contribution, if any, to the map of the keys before it |
| Schema.FieldsSafeReport | src/utils/validator/ObjectValidator.ts:19-30 | the report holds exactly the schema keys whose validator returned something with `length > 0`, with what it returned |
| Schema.ObjectSafeReport | src/utils/validator/ObjectValidator.ts:11-33 | on an object, `validateSafely` completes iff every key has a validator and none throws; then the report holds exactly the keys whose result has `length > 0` (a non-empty message list, or a nested report whose own `length` key holds one message reading as a positive integer), with that result |
| Schema.ReportKeys | src/utils/validator/ObjectValidator.ts:11-33 | every key of a report is a schema key, or "error" for a value that is not an object |
| Schema.NestedObjectWithoutLengthNeverReported | src/utils/validator/ObjectValidator.ts:26-29 | a nested object validator whose schema has no key `length` is never recorded under its key, whatever it finds |
| Schema.ReportLengthIsOneMessage | src/utils/validator/ObjectValidator.ts:28 | a nested report is recorded only when its `length` key holds exactly one message, since the text of several has a comma |
| Schema.FieldsSafeStopsAtFirstThrow | src/utils/validator/ObjectValidator.ts:22-24 | the first key whose check throws decides the outcome |
| Schema.FieldsSafeThrowPersists | src/utils/validator/ObjectValidator.ts:19-30 | once the walk throws, later keys do not change the outcome |
| Schema.FieldsStrictThrowPersists | src/utils/validator/ObjectValidator.ts:39-47 | once `validate`'s walk throws, later keys do not change the outcome |
| Schema.ObjectSafeStopsAtFirstThrow | src/utils/validator/ObjectValidator.ts:22-24 | the first throwing key decides `validateSafely`; a self-reference throws "Invalid validator object." |
| Schema.FieldsStrictNormalIff | src/utils/validator/ObjectValidator.ts:39-47 | `validate`'s walk completes exactly when no key's `validate` throws |
| Schema.FieldsStrictStopsAtFirstThrow | src/utils/validator/ObjectValidator.ts:39-47 | the first key whose `validate` throws decides the outcome |
| Schema.ObjectStrictStopsAtFirstThrow | src/utils/validator/ObjectValidator.ts:35-48 | the first throwing key's exception is what `validate` raises |
| Schema.ObjectStrictCompletes | src/utils/validator/ObjectValidator.ts:35-48 | when no key throws, `validate` returns undefined |
| Schema.FieldsIgnoreOtherKeys | src/utils/validator/ObjectValidator.ts:19-30 | keys outside the schema do not affect the walk |
| Schema.OnlySchemaKeysAreRead | src/utils/validator/ObjectValidator.ts:11-48 | two objects agreeing on the schema keys get the same report and the same `validate` outcome |
| Schema.FlatFieldStrictIffSafe | src/utils/validator/ObjectValidator.ts:35-48 | for a string, number or optional field, `validate` completes iff `validateSafely` reports nothing |
| Schema.FlatFieldsStrictIffSafeEmpty | src/utils/validator/ObjectValidator.ts:11-48 | for such fields, the walk of `validate` completes iff the report map is empty |
| Schema.FlatStrictIffSafeEmpty | src/utils/validator/ObjectValidator.ts:11-48 | for a flat schema, `validate` completes iff `validateSafely` returns an empty map |
| Schema.InferFields | src/utils/validator/index.ts:6-14 | the described type has one field per schema key, in schema order |
| Schema.StrictAcceptanceConforms | src/utils/validator/index.ts:6-14 | an object that a flat schema accepts has the described type, except for falsy values of fields made optional through the validator's own flag |
| Schema.FlatFieldAcceptanceConforms | src/utils/validator/index.ts:6-14 | the same for a single accepted field |
| Schema.InferredTypeCounterexamples | src/utils/validator/index.ts:6-14 | `null` under an optional key, and a missing key of a validator whose own flag is set, are accepted but not of the described type |
| Validators.CollectFailures | src/utils/validator/StringValidator.ts:99-104 | the loop collects exactly the failing rules' messages, in order |
| Validators.FirstFailure | src/utils/validator/StringValidator.ts:116-120 | the loop stops at the first failing rule's message, and finds none iff every rule matches |
| Validators.StringValidator.constructor | src/utils/validator/StringValidator.ts:7-8 | a new validator has no rules and is not optional |
| Validators.StringValidator.Min | src/utils/validator/StringValidator.ts:10-19 | appends the min rule with its default or given message and returns the same validator |
| Validators.StringValidator.Max | src/utils/validator/StringValidator.ts:21-30 | appends the max rule and returns the same validator |
| Validators.StringValidator.Length | src/utils/validator/StringValidator.ts:32-42 | appends the length rule and returns the same validator |
| Validators.StringValidator.Email | src/utils/validator/StringValidator.ts:44-53 | appends the email rule, on the pattern string as the code writes it, and returns the same validator |
| Validators.StringValidator.Password | src/utils/validator/StringValidator.ts:55-66 | appends the password rule, on the pattern string as the code writes it, and returns the same validator |
| Validators.StringValidator.Regex | src/utils/validator/StringValidator.ts:73-86 | appends a rule on the expression's source, sliced out of its `toString()` |
| Validators.StringValidator.Optional | src/utils/validator/StringValidator.ts:68-71 | sets the optional flag and returns a new wrapper around this same validator |
| Validators.StringValidator.ValidateSafely | src/utils/validator/StringValidator.ts:88-107 | returns the messages the string semantics gives |
| Validators.StringValidator.Validate | src/utils/validator/StringValidator.ts:109-123 | returns true or raises the first message as a ValidationError, as the semantics gives |
| Validators.NumberValidator.constructor | src/utils/validator/NumberValidator.ts:6-7 | a new validator has no rules and is not optional |
| Validators.NumberValidator.Min | src/utils/validator/NumberValidator.ts:9-18 | appends the digit-count min rule and returns the same validator |
| Validators.NumberValidator.Max | src/utils/validator/NumberValidator.ts:20-29 | appends the digit-count max rule and returns the same validator |
| Validators.NumberValidator.Length | src/utils/validator/NumberValidator.ts:31-41 | appends the digit-count length rule and returns the same validator |
| Validators.NumberValidator.Regex | src/utils/validator/NumberValidator.ts:48-58 | appends a rule on `pattern.toString()`, slashes and flags included, and returns the same validator |
| Validators.NumberValidator.Optional | src/utils/validator/NumberValidator.ts:43-46 | sets the optional flag and returns a new wrapper around this same validator |
| Validators.NumberValidator.ValidateSafely | src/utils/validator/NumberValidator.ts:60-78 | returns the messages the number semantics gives, on `value.toString()` |
| Validators.NumberValidator.Validate | src/utils/validator/NumberValidator.ts:80-96 | returns true or raises the first message as a plain Error |
| Validators.SelfRefValidator.constructor | src/utils/validator/SelfRefValidator.ts:8-11 | stores the property name and message; not optional |
| Validators.SelfRefValidator.Optional | src/utils/validator/SelfRefValidator.ts:13-16 | sets the optional flag and returns a new wrapper around this validator |
| Validators.SelfRefAccessors | src/utils/validator/SelfRefValidator.ts:18-28 | the accessors return the stored name and message, and the flag is false before `optional()` and true after |
| Validators.OptionalValidator.constructor | src/utils/validator/OptionalValidator.ts:6-8 | the wrapper holds the given validator |
| Validators.OptionalValidator.ValidateSafely | src/utils/validator/OptionalValidator.ts:10-12 | returns what the wrapped validator's `validateSafely` returns now, later rules included |
| Validators.OptionalValidator.Validate | src/utils/validator/OptionalValidator.ts:14-16 | raises exactly what the wrapped validator raises, and otherwise returns undefined |
| Validators.SchemaNodes | src/utils/validator/ObjectValidator.ts:7-9 | the snapshot of the schema has one node per entry, in order |
| Validators.ObjectValidator.constructor | src/utils/validator/ObjectValidator.ts:7-9 | stores the schema's entries as a fixed list, the validators in it by reference (the schema object itself is not kept, see Left out) |
| Validators.ObjectValidator.Snapshot | src/utils/validator/ObjectValidator.ts:7-9 | the validator graph seen as a schema tree with the same keys in the same order |
| Validators.ObjectValidator.ValidateSafely | src/utils/validator/ObjectValidator.ts:11-33 | returns what the schema semantics gives for the current snapshot |
| Validators.ObjectValidator.Validate | src/utils/validator/ObjectValidator.ts:35-48 | raises or completes as the schema semantics gives for the current snapshot |
| Validators.EntrySafe | src/utils/validator/ObjectValidator.ts:20-29 | one key of the walk: the method check, then the entry's `validateSafely` on the key's value |
| Validators.EntryValidateSafely | src/utils/validator/ObjectValidator.ts:26 | dispatches `validateSafely` to the entry's own class |
| Validators.EntryStrict | src/utils/validator/ObjectValidator.ts:40-46 | one key of `validate`'s walk: the method check, then the entry's `validate` |
| Validators.EntryValidate | src/utils/validator/ObjectValidator.ts:46 | dispatches `validate` to the entry's own class |
| Validators.Validator.String | src/utils/validator/index.ts:19-21 | a fresh string validator with no rules |
| Validators.Validator.Number | src/utils/validator/index.ts:23-25 | a fresh number validator with no rules |
| Validators.Validator.Object | src/utils/validator/index.ts:27-31 | a fresh object validator over the given schema entries (copied, see Left out) |
| Scenarios.UsernameOnOneLine | tests/validator/index.test.ts:4-10 | every character of the test name counts towards the string bounds |
| Scenarios.MinimumNotMet | tests/validator/index.test.ts:11-25 | `min(10)` on "popHero83" reports the minimum message, and `validate` raises it |
| Scenarios.IllegalType | tests/validator/index.test.ts:28-42 | the number 33 gets the type message, and `validate` raises |
| Scenarios.MinimumMet | tests/validator/index.test.ts:45-55 | `min(5)` accepts the name |
| Scenarios.MaximumChecks | tests/validator/index.test.ts:57-82 | `max(10)` accepts the name and reports a 14-character string once |
| Scenarios.EmailChecks | tests/validator/index.test.ts:85-116 | the email rule reports "1234567890Hero" and accepts "mail@mail.co" |
| Scenarios.PasswordChecks | tests/validator/index.test.ts:118-149 | the password rule reports and raises on "password" and accepts "P4sswd@8909" |
| Scenarios.EmailWithoutDot | src/utils/validator/StringValidator.ts:44-53 | as written, `email()` reports nothing on "user@hostcom" |
| Scenarios.PasswordOn | src/utils/validator/StringValidator.ts:55-66 | a fresh validator with `password()` reports its message on a text exactly when the pattern as written does not match it |
| Scenarios.PasswordWithoutDigit | src/utils/validator/StringValidator.ts:55-66 | as written, `password()` reports nothing on "Password", which has no digit |
| Scenarios.PasswordWithoutLetterD | src/utils/validator/StringValidator.ts:55-66 | as written, `password()` reports its message on "Abcefgh1" |
| Scenarios.RegexCheck | tests/validator/index.test.ts:151-190 | the engine receives "[a-z]{10}", and the message is reported exactly when it finds no match |
| Scenarios.WrapperSeesLaterRules | src/utils/validator/OptionalValidator.ts:10-12 | a rule added after `optional()` is applied through the wrapper |
| Scenarios.NameAgeOnShortName | src/utils/validator/ObjectValidator.ts:11-48 | a short name is reported under its key, a missing optional age is not, and `validate` raises the name's message |
| Scenarios.NestedFailureDropped | src/utils/validator/ObjectValidator.ts:26-29 | the same schema nested under `inner`: `validateSafely` reports nothing, while `validate` raises the name's message |
| Scenarios.NestedLengthReadAsNumber | src/utils/validator/ObjectValidator.ts:28 | a nested `{length: ["0x5"]}` has a positive `length` and is recorded; `{length: ["0x0"]}` and `{length: ["5", "5"]}` are not |
| Scenarios.NestedLengthKeyRecorded | src/utils/validator/ObjectValidator.ts:26-29 | a nested schema `{length: string().min(3, "5")}` on `{length: "ab"}` is recorded as `{inner: {length: ["5"]}}` |
| Scenarios.ObjectReport | src/utils/validator/ObjectValidator.ts:11-48 | the same, for a schema built with the factory and the builders |
| Scenarios.SelfRefInSchema | src/utils/validator/ObjectValidator.ts:22-24 | a bare self-reference in a schema makes both methods raise "Invalid validator object." |
| StringUtils.ToAlternateCasing | src/utils/string-utils/index.ts:75-88 | the loop swaps the case of each character, as `isUpperCase` decides |
| StringUtils.CaseTestsMeaning | src/utils/string-utils/index.ts:63-73 | the tests hold exactly for one character that is not numeric and has no lower (upper) case |
| StringUtils.CaseTestVectors | tests/string-utils/index.test.ts:99-133 | "A" is upper, "a" lower, "1" and multi-character strings neither, and "@" both |
| StringUtils.SwapCaseInvolutive | src/utils/string-utils/index.ts:80-85 | swapping case twice gives the character back |
| StringUtils.SplitCamelSeparates | src/utils/string-utils/index.ts:7 | after the camel-case split no lower-case letter is followed by an upper-case one |
| StringUtils.SplitCamelUnchanged | src/utils/string-utils/index.ts:7 | a string without a lower-upper pair is left unchanged |
| StringUtils.SplitCamelOfTwoWords | src/utils/string-utils/index.ts:7 | two words already separated by a break are left unchanged |
| StringUtils.SplitCamelAtBoundary | src/utils/string-utils/index.ts:7 | a lower-upper boundary between two words gets exactly one separator |
| StringUtils.SplitCamelStart | src/utils/string-utils/index.ts:7 | the split keeps the first character |
| StringUtils.SplitCamelKeepsNonBreaks | src/utils/string-utils/index.ts:7 | the split only inserts break characters |
| StringUtils.CollapseKeepsNonBreaks | src/utils/string-utils/index.ts:9 | collapsing `[-_\s]+` keeps every other character in order |
| StringUtils.CollapseStart | src/utils/string-utils/index.ts:9 | collapsing keeps a first character that is not a break |
| StringUtils.CollapseShape | src/utils/string-utils/index.ts:9 | after collapsing, every break is the separator and no two separators are adjacent |
| StringUtils.NonBreaksToLower | src/utils/string-utils/index.ts:22 | lower-casing commutes with dropping the breaks |
| StringUtils.SeparatedCaseShape | src/utils/string-utils/index.ts:20-25 | snake and kebab results have no upper case, only the separator as a break, no doubled separator, and the input's other characters lower-cased |
| StringUtils.SnakeCaseShape | src/utils/string-utils/index.ts:20-25 | `toSnakeCase` has no upper case, hyphen or white space, no doubled `_`, and the input's other characters lower-cased |
| StringUtils.KebabCaseShape | src/utils/string-utils/index.ts:56-61 | `toKebabCase` has no upper case, `_` or white space, no doubled `-`, and the input's other characters lower-cased |
| StringUtils.RecaseBySplit | src/utils/string-utils/index.ts:11-15 | mapping words of a split and joining them equals one pass over the characters |
| StringUtils.ToLowerIsMapChars | src/utils/string-utils/index.ts:14 | `toLowerCase` maps characters one by one |
| StringUtils.TitleWordsAreRecaseWords | src/utils/string-utils/index.ts:13-14 | title-casing each word is the general word recasing with upper first and lower rest |
| StringUtils.PascalWordsAreRecaseWords | src/utils/string-utils/index.ts:49-50 | pascal-casing each word is the recasing with upper first and the rest unchanged |
| StringUtils.TitleCaseIsRecase | src/utils/string-utils/index.ts:5-18 | `toTitleCase` is one character pass over the split and collapsed input |
| StringUtils.CamelCaseIsRecase | src/utils/string-utils/index.ts:27-41 | `toCamelCase` is one character pass over the collapsed input, with no camel split |
| StringUtils.PascalCaseIsRecase | src/utils/string-utils/index.ts:43-54 | `toPascalCase` is one character pass over the split and collapsed input |
| StringUtils.RecaseKeepingSpaces | src/utils/string-utils/index.ts:13-15 | joined with spaces, each character is recased by whether it starts a word |
| StringUtils.TitleCaseChars | src/utils/string-utils/index.ts:5-18 | every character after a space or at the start is upper-cased, every other one lower-cased |
| StringUtils.TitleCaseShape | src/utils/string-utils/index.ts:5-18 | the title has only single spaces as breaks and the input's other characters, up to case |
| StringUtils.RecaseDroppingSpaces | src/utils/string-utils/index.ts:38 | joined without separator, the result has no break character |
| StringUtils.CamelCaseShape | src/utils/string-utils/index.ts:27-41 | `toCamelCase` has no break and is the input without breaks, up to case |
| StringUtils.PascalCaseShape | src/utils/string-utils/index.ts:43-54 | `toPascalCase` has no break and is the input without breaks, up to case |
| StringUtils.RecaseLowered | src/utils/string-utils/index.ts:32-38 | up to case, recasing without separator only drops the spaces |
| StringUtils.NonBreaksOfSpaced | src/utils/string-utils/index.ts:28 | when spaces are the only breaks, dropping spaces drops the breaks |
| StringUtils.CollapseLettersThen | src/utils/string-utils/index.ts:9 | collapsing leaves a run of letters unchanged |
| StringUtils.CollapseBreakThen | src/utils/string-utils/index.ts:9 | a single break becomes the separator |
| StringUtils.CollapseBreakRun | src/utils/string-utils/index.ts:9 | a run of breaks becomes one separator |
| StringUtils.CollapseTwoWords | src/utils/string-utils/index.ts:9 | two letter words around a break become the words around the separator |
| StringUtils.SplitTwoWords | src/utils/string-utils/index.ts:11 | two letter words around the separator split into those two words |
| StringUtils.TitleCaseOfTwoWords | src/utils/string-utils/index.ts:5-18 | two words become both title-cased words joined by a space |
| StringUtils.PascalCaseOfTwoWords | src/utils/string-utils/index.ts:43-54 | two words become both words with an upper-case initial, joined |
| StringUtils.CamelCaseOfTwoWords | src/utils/string-utils/index.ts:27-41 | two words become the first lower-cased and the second title-cased |
| StringUtils.SeparatedCaseOfTwoWords | src/utils/string-utils/index.ts:20-25 | two words become both lower-cased around the separator |
| StringUtils.CamelCaseOfOneWord | src/utils/string-utils/index.ts:27-41 | a single letter word is just lower-cased |
| StringUtilsExamples.TitleCaseOfCamelInput | tests/string-utils/index.test.ts:11-13 | "helloWorld" becomes "Hello World" |
| StringUtilsExamples.KebabCaseOfCamelInput | tests/string-utils/index.test.ts:85-87 | "helloWorld" becomes "hello-world" |
| StringUtilsExamples.SnakeCaseOfSpacedInput | tests/string-utils/index.test.ts:25-27 | "Hello World" becomes "hello_world" |
| StringUtilsExamples.CamelCaseOfSnakeInput | tests/string-utils/index.test.ts:47-50 | "hello_world" becomes "helloWorld" |
| StringUtilsExamples.PascalCaseOfKebabInput | tests/string-utils/index.test.ts:70-73 | "hello-world" becomes "HelloWorld" |
| StringUtilsExamples.CamelCaseOfCamelInput | src/utils/string-utils/index.ts:27-41 | "helloWorld" becomes "helloworld": `toCamelCase` has no camel split |
| StringUtilsExamples.EmptyInput | tests/string-utils/index.test.ts:19-21 | every case conversion maps "" to "" |
| StringUtilsExamples.AlternateCasingExample | tests/string-utils/index.test.ts:144-146 | "Hello 123" becomes "hELLO 123" |
| Mime.GetMimeType | src/utils/mime/index.ts:77-79 | an own key gives its entry; an inherited member name gives that member and no MIME type; anything else gives "text/plain" |
| Mime.KeysAreShort | src/utils/mime/index.ts:1-57 | every table key has one to six characters |
| Mime.InheritedNamesAreLong | src/utils/mime/index.ts:1-57 | every inherited member name has at least seven characters, so none is a table key |
| Mime.KeysStartLowerOrDigit | src/utils/mime/index.ts:1-57 | every table key starts with a lower-case letter or a digit |
| Mime.DefaultIsTextEntry | src/utils/mime/index.ts:43 | the fallback `MimeMap["txt"]` is the documented default "text/plain" |
| Mime.JpegExtensions | src/utils/mime/index.ts:18-19 | jpg and jpeg map to image/jpeg |
| Mime.HtmlExtensions | src/utils/mime/index.ts:14-15 | htm and html map to text/html |
| Mime.MidiExtensions | src/utils/mime/index.ts:24-25 | mid and midi map to audio/x-midi |
| Mime.TiffExtensions | src/utils/mime/index.ts:39-40 | tif and tiff map to image/tiff |
| Mime.ExactKeyLookup | src/utils/mime/index.ts:77-79 | an extension starting with an upper-case letter or a dot gets the default: the lookup is exact |
| Mime.InheritedNamesStartLower | src/utils/mime/index.ts:77-79 | inherited member names start with a lower-case letter or `_` |
| Mime.EmptyExtension | src/utils/mime/index.ts:77-79 | the empty extension gets the default |
| Mime.UpperCaseAndDottedExamples | src/utils/mime/index.ts:77-79 | "JPG" and ".png" get the default |
| Mime.InheritedNameExample | src/utils/mime/index.ts:77-79 | "constructor" finds the inherited member |
| Jwt.CreateExpiryOfDuration | src/utils/jwt/jwt.ts:78-85 | a number followed by s, m, h, d or y gives `now` plus the number times the unit's multiplier, clipped to the Date range |
| Jwt.UnitHasMultiplier | src/utils/jwt/jwt.ts:17-23 | each of the five units has a multiplier |
| Jwt.TimeMultiplierValues | src/utils/jwt/jwt.ts:17-23 | the multipliers are 1000, 60000, 3600000, 86400000 and 31536000000 milliseconds |
| Jwt.CreateExpiryUnknownUnit | src/utils/jwt/jwt.ts:78-85 | an empty string, an unknown unit or no leading number gives NaN |
| Jwt.CreateExpiryOneHour | src/utils/jwt/jwt.ts:54-85 | "1h" gives `now` plus 3600000 |
| Jwt.MissingClaimIndex | src/utils/jwt/jwt.ts:222 | the first required claim missing from the claims, or -1 exactly when none is |
| Jwt.SignJwt | src/utils/jwt/jwt.ts:203-243 | the intended `signJwt`, which its tests expect: raises BadJwtHeader exactly when the algorithm is not accepted, BadJwtClaim exactly when it is and a required claim is missing, and nothing else (the code as written raises a TypeError in the second case, see Jwt.SignJwtAsWritten) |
| Jwt.MissingClaimIsFirst | src/utils/jwt/jwt.ts:222-225 | the claim named in the message is the first missing one in `iat, exp, aud, sub, iss` order |
| Jwt.MissingExpNamed | tests/jwt/index.test.ts:150-166 | claims with `iat` but without `exp` raise BadJwtClaim naming `exp` |
| Jwt.BadAlgorithmBeforeClaims | tests/jwt/index.test.ts:55-72 | "RS256" raises BadJwtHeader with its message, whatever the claims |
| Jwt.SignJwtAsWritten | src/utils/jwt/jwt.ts:222-225 | the code as written differs from the intended behaviour exactly when the algorithm is accepted and a claim is missing |
| Jwt.MissingExpAsWritten | tests/jwt/index.test.ts:150-166 | the test's claims raise a TypeError as written, where BadJwtClaim is intended |
| Jwt.SplitToken | src/utils/jwt/jwt.ts:245-253 | completes exactly when the trimmed token has three dot-separated parts, which rejoin to it and contain no dot; otherwise raises InvalidJwt with the structure message |
| Jwt.SplitThreeParts | src/utils/jwt/jwt.ts:246 | three dot-free parts joined with dots split back into those parts |
| Jwt.VerifyReadableToken | src/utils/jwt/jwt.ts:311-350 | with readable segments and an accepted algorithm, an expired payload raises ExpiredJwt, then a signature mismatch raises DirtyJwtSignature, otherwise the payload is returned |
| Jwt.UnreadableHeader | tests/jwt/index.test.ts:98-106 | a three-part token with an undecodable header raises that InvalidJwt |
| Jwt.WrongPartCountFirst | src/utils/jwt/jwt.ts:315-319 | a token without exactly three parts raises InvalidJwt before anything is decoded |
| Jwt.HeaderAlgBeforePayload | src/utils/jwt/jwt.ts:322-327 | an unaccepted header algorithm raises BadJwtHeader before the payload is read |
| Jwt.TrimLeavesToken | src/utils/jwt/jwt.ts:246 | `trim` leaves a string of base64url characters and dots unchanged |
| Jwt.Base64UrlHasNoDot | src/utils/jwt/jwt.ts:142 | base64url text contains no dot |
| Jwt.Payload | src/utils/jwt/jwt.ts:227-230 | the payload has the keys of both objects, a custom claim overriding a claim of the same key |
| Jwt.SignedSegments | src/utils/jwt/jwt.ts:216-242 | a signable input gives header, payload and HMAC segments joined by dots, all base64url and readable back |
| Jwt.HeaderReadable | src/utils/jwt/jwt.ts:216-220 | the encoded header decodes back to `{alg, typ: "JWT"}` |
| Jwt.PayloadReadable | src/utils/jwt/jwt.ts:227-230 | the encoded payload decodes back to the merged claims |
| Jwt.SignThenVerify | tests/jwt/index.test.ts:15-32 | verifying a freshly signed, unexpired token with the same secret returns the merged claims |
| Jwt.AppendToSignature | tests/jwt/index.test.ts:121 | text appended to a token extends its signature segment |
| Jwt.TokenChars | src/utils/jwt/jwt.ts:240-246 | `trim` leaves a signed token unchanged |
| Jwt.EmptyCustomClaimsKeepFiveKeys | tests/jwt/index.test.ts:187-202 | with no custom claims, the verified payload is the five required claims |
| Jwt.RequiredClaimsAreFive | src/utils/jwt/jwt.ts:94-100 | the required claim names are five distinct names |
| Jwt.ExpiryAtNowAccepted | src/utils/jwt/jwt.ts:333-335 | a token whose `exp` equals `now` is not expired: the comparison is strict |
| Jwt.TamperedSignature | tests/jwt/index.test.ts:109-128 | a signed token with base64url text appended raises DirtyJwtSignature, or ExpiredJwt if it has expired |

## Left out

- I/O, module loading and the TypeScript type annotations are not modelled.
- Numbers are unbounded integers. Floating point, NaN as a value, the infinities, `-0` and exponent notation are not modelled, so `Num` holds an integer and `toString` of a number is its decimal text.
- JsStrings: one `char` stands for one UTF-16 code unit. Case mapping is ASCII only, so the string utilities' results on non-ASCII letters are not modelled.
- Patterns: user-supplied expressions are not interpreted; the `engine` parameter stands for `new RegExp(p).test(s)`. Their flags are not modelled either, since `validateSafely` builds a `RegExp` from the source alone and uses no flags.
- Patterns.SlashThenAnchorNeverMatches: since the engine is a parameter, that `new RegExp` of a `toString()` text starting with `/^` matches nothing is a law the engine is required to obey, for texts without `|`. What the engine does with any other stored text is not modelled.
- Rules.MinRule, Rules.MaxRule, Rules.LengthRule and the Min, Max and Length builders of Validators.StringValidator and Validators.NumberValidator: the bound is a natural number. A negative or fractional bound, which JavaScript writes into a pattern such as `^.{-1,}$` whose braces are then literal text, is not modelled.
- Patterns.StoredSourceIsSource: it assumes the flags contain no `/`, which `RegExp` guarantees.
- Schema: a schema's keys are taken in declaration order. The order in which `for...in` enumerates integer-like keys first is not modelled.
- Validators.ObjectValidator.constructor and Validators.Validator.Object: the schema object's keys and their values are copied into a fixed list when the validator is built. The object validator keeps the schema object itself by reference. So two things are not modelled: keys added to that object afterwards, which the code then validates, and a schema that reaches its own object validator, where the code recurses until the stack overflows. The validators in the list are kept by reference, so rules added to them later are seen.
- Schema.Field: it reads only the own keys of the validated object. In the code, `(object as any)[key]` also finds members inherited from Object.prototype, so a schema key such as `constructor` or `toString` on an object without that own key reads a function, which is truthy, not `undefined`. For `{constructor: Validator.string().optional()}` on `{}`, the code reports the string type message, while the model skips the absent optional value.
- Schema: the `ObjectValidationError` class of src/utils/validator/error.ts is never thrown by the core and is not modelled.
- Validators.SelfRefValidator: the accessors `IsOptional`, `GetErrorMsg` and `GetPropertyName` are plain reads. They carry no contract of their own; `SelfRefAccessors` states what they return.
- Schema.Infer: `VInfer` is a compile-time type. It is modelled as a value (a shape) with a `Conforms` predicate. TypeScript's structural assignability is not modelled.
- JsValues: the text of a `TypeError` raised by the engine is not modelled, only its class.
- Mime: the table is a constant; `as const` keeps it unchanged. Inherited members of `Object.prototype` are a fixed list of twelve names, and the function value such a name finds is not modelled further.
- Jwt: HMAC, base64url and JSON are parameters (`Codec`). The proofs assume the laws in `Jwt.Lawful`: JSON round-trips flat records, encoding is base64url, and decoding reads back ASCII text.
- Jwt: `atob` yields Latin-1, so a payload with non-ASCII text is not shown to round-trip.
- Jwt: the order of keys in the JSON text, and arrays and nested objects inside claims, are not modelled; claims hold strings and numbers.
- Jwt: `Date.now()` is the `now` argument. `createIssueAt` (src/utils/jwt/jwt.ts:50-52) only converts a `Date` to its milliseconds and is not modelled.
- Jwt.CreateExpiry: it computes with exact integers. The double-precision arithmetic of `parseInt(...) * multiplier` is not modelled, and fractional results cannot arise.
- Jwt.IsAfter: it compares `now` with an `exp` converted as `Number()` does. Strings with a fraction, an exponent or `Infinity` are treated as NaN here, so the comparison is false for them.
- Schema.LengthIsPositive, Schema.FieldsSafeReport, Schema.ObjectSafeReport: a nested `length` message is read by JsStrings.StringToNumber, which reads integer texts only: decimal with an optional sign, or with a `0x`, `0b` or `0o` prefix. A message with a fraction, an exponent or `Infinity` (say "1.5", "1e1" or "Infinity"), which `Number` reads as a positive number, is NaN here, so the model does not record a nested report that the code records.
- Jwt.VerifyJwt: the signature comparison with `!==` is not constant-time, and its timing is not modelled.
- Jwt: the `Buffer` base64url-to-base64 conversion and `atob` are one `decode` function of the `Codec`, and the model maps a failing `decode` to the InvalidJwt "Base64 decoding failed" message. In the code that branch is never taken: `Buffer.from(s, "base64url").toString("base64")` always yields well-formed base64, so `atob` does not throw. The model keeps the branch because the `Codec` laws do not say that `decode` never fails.

## Findings

| source | as written | input that shows it | evidently intended | confidence | as-written member | corrected member |
|---|---|---|---|---|---|---|
| src/utils/validator/StringValidator.ts:58 | the pattern is a string literal, so `\d` becomes `d` and the first lookahead requires a letter `d` | "Password" is accepted although it has no digit; "Abcefgh1" is rejected although it meets the stated rule | a digit is required, as the message and the character class `\d` say | not executed | Patterns.PasswordAsWrittenNeedsNoDigit | Patterns.PasswordMeaning |
| src/utils/validator/StringValidator.ts:48 | in the string literal `\.` becomes `.`, and `\%\-\_` becomes the range `%-_`, which contains `@` | "user@hostcom" (no dot) and "a@b@c.de" (two `@`) are accepted | one `@`, a literal dot before the top-level domain | not executed | Patterns.EmailAsWrittenAcceptsNoDot | Patterns.EmailShape |
| src/utils/validator/NumberValidator.ts:53 | the rule stores `pattern.toString()`, slashes and flags included, and `new RegExp` of that text matches a literal `/` | `regex(/^[0-9]{3}$/, m)` stores "/^[0-9]{3}$/", which no number's text can match, so every number is reported | store the expression's source, as the string validator does on lines 77-78 | not executed | Rules.NumberRegexAsWrittenAlwaysReports | Rules.NumberRegexIntendedTestsSource |
| src/utils/jwt/jwt.ts:224 | `BadJwtClaimObj` is imported from `./errors`, which exports only `BadJwtClaim`; `new` on the resulting `undefined` raises a TypeError | the claims of tests/jwt/index.test.ts:152-157, which lack `exp` | raise `BadJwtClaim` naming the missing claim | not executed | Jwt.MissingExpAsWritten | Jwt.MissingExpNamed |
