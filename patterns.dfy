/** The regular expressions the string and number validators build, as predicates on the tested
    string.  A pattern that the library's caller passes to `regex` is handed to an engine
    parameter instead. */
module Patterns {
  import opened JsValues
  import opened JsStrings

  /** `new RegExp(source).test(subject)` for a pattern supplied by the library's caller. */
  type Engine = (string, string) -> bool

  datatype CharClass =
      /** `.`: every character except a line terminator */
    | AnyChar
      /** `[0-9]` */
    | DecimalDigit

  /** The pattern strings the validators store. */
  datatype Pattern =
      /** `^c{min,}$` when `max` is None and `^c{min,max}$` otherwise; `^c{n}$` has min = max = n */
    | Repeat(cls: CharClass, min: nat, max: Option<nat>)
      /** the pattern string of `StringValidator.email`, as the code writes it */
    | EmailPattern
      /** the pattern string of `StringValidator.password`, as the code writes it */
    | PasswordPattern
      /** a pattern string taken from a caller's regular expression */
    | Source(source: string)

  predicate InClass(cls: CharClass, c: char) {
    match cls
    case AnyChar => !IsLineTerminator(c)
    case DecimalDigit => IsDigit(c)
  }

  /** `^c{min,max}$` tested against `s`. */
  predicate RepeatTest(cls: CharClass, min: nat, max: Option<nat>, s: string) {
    (forall i | 0 <= i < |s| :: InClass(cls, s[i])) && min <= |s| && (max.Some? ==> |s| <= max.value)
  }

  /** `new RegExp(pattern).test(s)`, for the pattern strings exactly as the code writes them:
      the email and password patterns have lost the backslashes of their string literals. */
  predicate Matches(p: Pattern, s: string, engine: Engine) {
    match p
    case Repeat(cls, min, max) => RepeatTest(cls, min, max, s)
    case EmailPattern => EmailTestAsWritten(s)
    case PasswordPattern => PasswordTestAsWritten(s)
    case Source(source) => engine(source, s)
  }

  // ---------------------------------------------------------------- email

  /** `[a-zA-Z%\-_.+0-9]`, the local-part class the email pattern is written to have. */
  predicate IsLocalPartChar(c: char) {
    IsAsciiLetter(c) || c == '%' || c == '-' || c == '_' || c == '.' || c == '+' || IsDigit(c)
  }

  /** `[a-zA-Z\-]` */
  predicate IsDomainChar(c: char) {
    IsAsciiLetter(c) || c == '-'
  }

  /** Positions `at` (of the `@`) and `dot` (of the character before the top-level domain) split
      `s` into local part, domain, separator and top-level domain; `local` and `separator` say
      what the local part and the separator may be. */
  predicate EmailSplitWith(s: string, at: int, dot: int, asWritten: bool)
    requires 1 <= at && at + 2 <= dot && dot + 3 <= |s|
  {
    (forall k | 0 <= k < at ::
       if asWritten then IsLocalPartChar(s[k]) || ('%' <= s[k] <= '_') else IsLocalPartChar(s[k]))
    && s[at] == '@'
    && (forall k | at < k < dot :: IsDomainChar(s[k]))
    && (if asWritten then !IsLineTerminator(s[dot]) else s[dot] == '.')
    && (forall k | dot < k < |s| :: IsAsciiLetter(s[k]))
  }

  predicate EmailTestWith(s: string, asWritten: bool) {
    |s| > 0 && IsAsciiLetter(s[0]) &&
    exists at, dot | 1 <= at < |s| && at + 2 <= dot < |s| && dot + 3 <= |s| ::
      EmailSplitWith(s, at, dot, asWritten)
  }

  /** `(?=^[a-zA-Z]+)[a-zA-Z%\-_.+0-9]+@[a-zA-Z\-]+\.[a-zA-Z]{2,}$`, the email pattern with the
      escapes its source text spells out. */
  predicate EmailTest(s: string) {
    EmailTestWith(s, false)
  }

  /** The email pattern as the string literal actually delivers it to `new RegExp`: the
      backslashes are dropped, so `%-_` becomes the range from '%' to '_' (which takes in '@',
      the digits and the upper-case letters) and the `.` before the top-level domain becomes
      the wildcard. */
  predicate EmailTestAsWritten(s: string) {
    EmailTestWith(s, true)
  }

  /** An address in the intended shape: a local part that starts with a letter, one `@`, a domain
      label of letters and hyphens, a dot and a top-level domain of at least two letters. */
  lemma EmailAccepts(local: string, domain: string, tld: string)
    requires |local| > 0 && IsAsciiLetter(local[0])
    requires forall k | 0 <= k < |local| :: IsLocalPartChar(local[k])
    requires |domain| > 0 && forall k | 0 <= k < |domain| :: IsDomainChar(domain[k])
    requires |tld| >= 2 && forall k | 0 <= k < |tld| :: IsAsciiLetter(tld[k])
    ensures EmailTest(local + "@" + domain + "." + tld)
  {
    var s := local + "@" + domain + "." + tld;
    var at := |local|;
    var dot := |local| + 1 + |domain|;
    assert forall k | 0 <= k < at :: s[k] == local[k];
    assert forall k | at < k < dot :: s[k] == domain[k - at - 1];
    assert forall k | dot < k < |s| :: s[k] == tld[k - dot - 1];
    assert EmailSplitWith(s, at, dot, false);
  }

  /** Whatever the intended email pattern accepts contains exactly one `@`, a dot after it, and
      ends in at least two letters. */
  lemma {:induction false} EmailShape(s: string)
    requires EmailTest(s)
    ensures exists at | 0 < at < |s| :: s[at] == '@' && forall k | 0 <= k < |s| && k != at :: s[k] != '@'
    ensures exists dot | 0 < dot < |s| :: s[dot] == '.' && forall k | dot < k < |s| :: IsAsciiLetter(s[k])
    ensures IsAsciiLetter(s[|s| - 1]) && IsAsciiLetter(s[|s| - 2])
  {
    var at, dot :| 1 <= at < |s| && at + 2 <= dot && dot + 3 <= |s| && EmailSplitWith(s, at, dot, false);
    assert forall k | 0 <= k < |s| && k != at :: s[k] != '@' by {
      forall k | 0 <= k < |s| && k != at
        ensures s[k] != '@'
      {
        if k < at {
          assert IsLocalPartChar(s[k]);
        } else if k < dot {
          assert IsDomainChar(s[k]);
        } else if k > dot {
          assert IsAsciiLetter(s[k]);
        }
      }
    }
    assert s[|s| - 1] == s[|s| - 1] && dot < |s| - 2;
  }

  /** The as-written pattern accepts any split whose parts are in its classes. */
  lemma EmailAsWrittenAccepts(local: string, domain: string, sep: char, tld: string)
    requires |local| > 0 && IsAsciiLetter(local[0])
    requires AllChars(local, c => IsLocalPartChar(c) || ('%' <= c <= '_'))
    requires |domain| > 0 && AllChars(domain, IsDomainChar)
    requires !IsLineTerminator(sep)
    requires |tld| >= 2 && AllChars(tld, IsAsciiLetter)
    ensures EmailTestAsWritten(local + "@" + domain + [sep] + tld)
  {
    var s := local + "@" + domain + [sep] + tld;
    var at := |local|;
    var dot := |local| + 1 + |domain|;
    assert forall k | 0 <= k < at :: s[k] == local[k];
    assert forall k | at < k < dot :: s[k] == domain[k - at - 1];
    assert forall k | dot < k < |s| :: s[k] == tld[k - dot - 1];
    assert EmailSplitWith(s, at, dot, true);
  }

  /** The address from the validator's tests passes both readings of the pattern, and the string
      without an `@` passes neither. */
  lemma EmailTestVectors()
    ensures EmailTest("mail@mail.co")
    ensures EmailTestAsWritten("mail@mail.co")
    ensures !EmailTest("1234567890Hero")
    ensures !EmailTestAsWritten("1234567890Hero")
  {
    AllCharsByRecursion("mail", IsLocalPartChar);
    AllCharsByRecursion("mail", c => IsLocalPartChar(c) || ('%' <= c <= '_'));
    AllCharsByRecursion("mail", IsDomainChar);
    AllCharsByRecursion("co", IsAsciiLetter);
    EmailAccepts("mail", "mail", "co");
    EmailAsWrittenAccepts("mail", "mail", '.', "co");
    assert "mail" + "@" + "mail" + "." + "co" == "mail@mail.co";
    assert "mail" + "@" + "mail" + ['.'] + "co" == "mail@mail.co";
    assert !IsAsciiLetter("1234567890Hero"[0]);
  }

  /** The intended pattern rejects a string with two `@`. */
  lemma EmailRejectsTwoAts(s: string, i: int, j: int)
    requires 0 <= i < j < |s| && s[i] == '@' && s[j] == '@'
    ensures !EmailTest(s)
  {
    forall at, dot | 1 <= at < |s| && at + 2 <= dot < |s| && dot + 3 <= |s|
      ensures !EmailSplitWith(s, at, dot, false)
    {
      var k := if at == i then j else i;
      assert s[k] == '@' && k != at;
      if k < at {
        assert !IsLocalPartChar(s[k]);
      } else if k < dot {
        assert !IsDomainChar(s[k]);
      } else if k == dot {
        assert s[dot] != '.';
      } else {
        assert !IsAsciiLetter(s[k]);
      }
    }
  }

  /** As written, the pattern accepts an address with no dot at all; the intended pattern does
      not. */
  lemma EmailAsWrittenAcceptsNoDot()
    ensures EmailTestAsWritten("user@hostcom") && !EmailTest("user@hostcom")
  {
    EmailAsWrittenAcceptsHostcom();
    EmailRejectsHostcom();
  }

  lemma EmailRejectsHostcom()
    ensures !EmailTest("user@hostcom")
  {
    AllCharsByRecursion("user@h", IsNotDot);
    AllCharsByRecursion("ostcom", IsNotDot);
    AllCharsJoined("user@h", "ostcom", IsNotDot);
    assert "user@h" + "ostcom" == "user@hostcom";
    EmailRejectsNoDot("user@hostcom");
  }

  lemma EmailAsWrittenAcceptsHostcom()
    ensures EmailTestAsWritten("user@hostcom")
  {
    AllCharsByRecursion("user", c => IsLocalPartChar(c) || ('%' <= c <= '_'));
    AllCharsByRecursion("hos", IsDomainChar);
    AllCharsByRecursion("com", IsAsciiLetter);
    EmailAsWrittenAccepts("user", "hos", 't', "com");
    assert "user" + "@" + "hos" + ['t'] + "com" == "user@hostcom";
  }

  predicate IsNotDot(c: char) { c != '.' }

  /** The intended pattern rejects a string without a dot. */
  lemma EmailRejectsNoDot(s: string)
    requires AllChars(s, IsNotDot)
    ensures !EmailTest(s)
  {
    forall at, dot | 1 <= at < |s| && at + 2 <= dot < |s| && dot + 3 <= |s|
      ensures !EmailSplitWith(s, at, dot, false)
    {
      assert s[dot] != '.';
    }
  }

  /** As written, the pattern accepts an address with two `@`; the intended pattern does not. */
  lemma EmailAsWrittenAcceptsTwoAts()
    ensures EmailTestAsWritten("a@b@c.de") && !EmailTest("a@b@c.de")
  {
    var t := "a@b@c.de";
    AllCharsByRecursion("a@b", c => IsLocalPartChar(c) || ('%' <= c <= '_'));
    AllCharsByRecursion("c", IsDomainChar);
    AllCharsByRecursion("de", IsAsciiLetter);
    EmailAsWrittenAccepts("a@b", "c", '.', "de");
    assert "a@b" + "@" + "c" + ['.'] + "de" == t;
    EmailRejectsTwoAts(t, 1, 3);
  }

  // ---------------------------------------------------------------- password

  /** The classes the password pattern looks ahead for. */
  datatype Lookahead =
      /** `\d` as the pattern means it */
    | Digit
      /** `d`, which is what `\d` inside the string literal becomes */
    | LetterD
    | Lower
    | Upper
    | Letter

  predicate InLookahead(la: Lookahead, c: char) {
    match la
    case Digit => IsDigit(c)
    case LetterD => c == 'd'
    case Lower => IsLower(c)
    case Upper => IsUpper(c)
    case Letter => IsAsciiLetter(c)
  }

  /** `(?=.*x)` at the start of `s`: some character of the class occurs, with no line terminator
      before it. */
  predicate LooksAhead(s: string, la: Lookahead) {
    exists k | 0 <= k < |s| :: InLookahead(la, s[k]) && forall j | 0 <= j < k :: !IsLineTerminator(s[j])
  }

  /** `^(?=.*\d)(?=.*[a-z])(?=.*[A-Z])(?=.*[a-zA-Z]).{8,}$`, the password pattern with the
      escape its source text spells out. */
  predicate PasswordTest(s: string) {
    LooksAhead(s, Digit) && LooksAhead(s, Lower) && LooksAhead(s, Upper) && LooksAhead(s, Letter)
    && RepeatTest(AnyChar, 8, None, s)
  }

  /** The password pattern as the string literal delivers it: `\d` has become the letter `d`. */
  predicate PasswordTestAsWritten(s: string) {
    LooksAhead(s, LetterD) && LooksAhead(s, Lower) && LooksAhead(s, Upper) && LooksAhead(s, Letter)
    && RepeatTest(AnyChar, 8, None, s)
  }

  predicate HasCharIn(s: string, la: Lookahead) {
    exists k | 0 <= k < |s| :: InLookahead(la, s[k])
  }

  lemma LooksAheadOnSingleLine(s: string, la: Lookahead)
    requires forall i | 0 <= i < |s| :: !IsLineTerminator(s[i])
    ensures LooksAhead(s, la) <==> HasCharIn(s, la)
  {
    if HasCharIn(s, la) {
      var k :| 0 <= k < |s| && InLookahead(la, s[k]);
      assert forall j | 0 <= j < k :: !IsLineTerminator(s[j]);
    }
  }

  /** The intended pattern accepts exactly the strings of at least eight characters, none a
      line terminator, with a digit, a lower-case letter and an upper-case letter. */
  lemma PasswordMeaning(s: string)
    ensures PasswordTest(s) <==>
      |s| >= 8 && (forall i | 0 <= i < |s| :: !IsLineTerminator(s[i]))
      && HasCharIn(s, Digit) && HasCharIn(s, Lower) && HasCharIn(s, Upper)
  {
    if forall i | 0 <= i < |s| :: !IsLineTerminator(s[i]) {
      LooksAheadOnSingleLine(s, Digit);
      LooksAheadOnSingleLine(s, Lower);
      LooksAheadOnSingleLine(s, Upper);
      LooksAheadOnSingleLine(s, Letter);
      if HasCharIn(s, Upper) {
        var k :| 0 <= k < |s| && InLookahead(Upper, s[k]);
        assert InLookahead(Letter, s[k]);
      }
    }
  }

  /** The pattern as written accepts exactly the strings of at least eight characters, none a
      line terminator, with a letter `d` and an upper-case letter: no digit is needed. */
  lemma PasswordAsWrittenMeaning(s: string)
    ensures PasswordTestAsWritten(s) <==>
      |s| >= 8 && (forall i | 0 <= i < |s| :: !IsLineTerminator(s[i]))
      && HasCharIn(s, LetterD) && HasCharIn(s, Upper)
  {
    if forall i | 0 <= i < |s| :: !IsLineTerminator(s[i]) {
      LooksAheadOnSingleLine(s, LetterD);
      LooksAheadOnSingleLine(s, Lower);
      LooksAheadOnSingleLine(s, Upper);
      LooksAheadOnSingleLine(s, Letter);
      if HasCharIn(s, Upper) {
        var k :| 0 <= k < |s| && InLookahead(Upper, s[k]);
        assert InLookahead(Letter, s[k]);
      }
      if HasCharIn(s, LetterD) {
        var k :| 0 <= k < |s| && InLookahead(LetterD, s[k]);
        assert InLookahead(Lower, s[k]);
      }
    }
  }

  /** The weak password from the validator's tests fails both patterns: it has no upper-case
      letter. */
  lemma PasswordRejectsTestVector()
    ensures !PasswordTest("password") && !PasswordTestAsWritten("password")
  {
    AllCharsByRecursion("password", c => !IsUpper(c));
  }

  /** The strong password from the validator's tests passes both patterns. */
  lemma PasswordAcceptsTestVector()
    ensures PasswordTest("P4sswd@8909") && PasswordTestAsWritten("P4sswd@8909")
  {
    var s := "P4sswd@8909";
    AllCharsByRecursion(s, c => !IsLineTerminator(c));
    assert InLookahead(Digit, s[1]) && InLookahead(Lower, s[2]) && InLookahead(Upper, s[0]);
    assert InLookahead(Letter, s[0]) && InLookahead(LetterD, s[5]);
  }

  /** As written, a password without any digit passes; the intended pattern rejects it. */
  lemma PasswordAsWrittenNeedsNoDigit()
    ensures PasswordTestAsWritten("Password") && !PasswordTest("Password")
  {
    var p := "Password";
    AllCharsByRecursion(p, c => !IsLineTerminator(c) && !IsDigit(c));
    PasswordAsWrittenMeaning(p);
    assert InLookahead(LetterD, p[7]) && InLookahead(Upper, p[0]);
  }

  /** As written, a password with a digit but no letter `d` fails; the intended pattern accepts
      it. */
  lemma PasswordAsWrittenNeedsLetterD()
    ensures !PasswordTestAsWritten("Abcefgh1") && PasswordTest("Abcefgh1")
  {
    var q := "Abcefgh1";
    AllCharsByRecursion(q, c => !IsLineTerminator(c) && c != 'd');
    PasswordMeaning(q);
    assert InLookahead(Digit, q[7]) && InLookahead(Lower, q[1]) && InLookahead(Upper, q[0]);
  }

  // ---------------------------------------------------------------- regular-expression literals

  /** A regular-expression value, written `/source/flags`. */
  datatype RegExp = RegExp(source: string, flags: string)

  predicate ValidFlags(flags: string) {
    forall i | 0 <= i < |flags| :: flags[i] in "dgimsuvy"
  }

  /** `pattern.toString()` */
  function RegExpToString(r: RegExp): string {
    "/" + r.source + "/" + r.flags
  }

  /** The pattern string `StringValidator.regex` stores: the text between the first and the last
      slash of `pattern.toString()`. */
  function StoredSource(r: RegExp): string {
    var text := RegExpToString(r);
    Slice(text, 1, LastIndexOf(text, '/'))
  }

  /** What is stored is the source of the expression, whatever slashes the source itself contains;
      the flags are dropped. */
  lemma StoredSourceIsSource(r: RegExp)
    requires ValidFlags(r.flags)
    ensures StoredSource(r) == r.source
  {
    var text := RegExpToString(r);
    var slash := 1 + |r.source|;
    assert text[slash] == '/';
    assert forall j | slash < j < |text| :: text[j] == r.flags[j - slash - 1];
    assert LastIndexOf(text, '/') == slash;
    assert text[1..slash] == r.source;
  }

  /** The pattern string `NumberValidator.regex` stores as written: `pattern.toString()`, slashes
      and flags included. */
  function NumberStoredSourceAsWritten(r: RegExp): string {
    RegExpToString(r)
  }

  /** A law every engine that follows JavaScript obeys: a pattern with no alternative `|` that
      starts with a literal `/` and then the start anchor `^` matches nothing, since without the
      multiline flag `^` only holds before the first character and the `/` has already been
      consumed there. */
  ghost predicate SlashThenAnchorNeverMatches(engine: Engine) {
    forall p: string, s: string | 2 <= |p| && p[0] == '/' && p[1] == '^' && '|' !in p :: !engine(p, s)
  }

  /** As written, the number validator stores something other than the source of every
      expression: the stored text starts and ends with characters the source does not have. */
  lemma NumberStoredSourceAsWrittenDiffers(r: RegExp)
    ensures NumberStoredSourceAsWritten(r) != r.source
    ensures NumberStoredSourceAsWritten(RegExp("^[0-9]{3}$", "")) == "/^[0-9]{3}$/"
  {
    assert |NumberStoredSourceAsWritten(r)| == |r.source| + 2 + |r.flags|;
  }
}
