/** The String built-ins and conversions the library relies on.  A string is a sequence of
    UTF-16 code units, one `char` per unit. */
module JsStrings {
  import opened JsValues

  /** LineTerminator: the characters `.` in a regular expression does not match. */
  predicate IsLineTerminator(c: char) {
    c == '\n' || c == '\r' || c == '\U{2028}' || c == '\U{2029}'
  }

  /** WhiteSpace or LineTerminator: the `\s` class, what `trim` removes, and what `Number(...)`
      and `parseInt` skip. */
  predicate IsWhiteSpace(c: char) {
    if c < '\U{0080}' then
      c == ' ' || '\t' <= c <= '\r'
    else
      c == '\U{00A0}' || c == '\U{1680}' || ('\U{2000}' <= c <= '\U{200A}')
        || c == '\U{2028}' || c == '\U{2029}' || c == '\U{202F}' || c == '\U{205F}'
        || c == '\U{3000}' || c == '\U{FEFF}'
  }

  /** Every line terminator is white space in this sense. */
  lemma LineTerminatorIsWhiteSpace(c: char)
    ensures IsLineTerminator(c) ==> IsWhiteSpace(c)
  {
  }

  predicate IsDigit(c: char) { '0' <= c <= '9' }
  predicate IsLower(c: char) { 'a' <= c <= 'z' }
  predicate IsUpper(c: char) { 'A' <= c <= 'Z' }
  predicate IsAsciiLetter(c: char) { IsLower(c) || IsUpper(c) }

  predicate IsAscii(s: string) {
    forall i | 0 <= i < |s| :: s[i] < '\U{0080}'
  }

  /** `toUpperCase` on one ASCII character. */
  function UpperChar(c: char): char {
    if IsLower(c) then (c as int - 32) as char else c
  }

  /** `toLowerCase` on one ASCII character. */
  function LowerChar(c: char): char {
    if IsUpper(c) then (c as int + 32) as char else c
  }

  /** `s.toUpperCase()` for an ASCII string. */
  function ToUpper(s: string): string {
    if s == [] then [] else [UpperChar(s[0])] + ToUpper(s[1..])
  }

  /** `s.toLowerCase()` for an ASCII string. */
  function ToLower(s: string): string {
    if s == [] then [] else [LowerChar(s[0])] + ToLower(s[1..])
  }

  lemma {:induction false} ToLowerAppend(a: string, b: string)
    ensures ToLower(a + b) == ToLower(a) + ToLower(b)
  {
    if a != [] {
      assert (a + b)[1..] == a[1..] + b;
      ToLowerAppend(a[1..], b);
    } else {
      assert a + b == b;
    }
  }

  lemma {:induction false} ToLowerIdempotent(s: string)
    ensures ToLower(ToLower(s)) == ToLower(s)
  {
    if s != [] {
      ToLowerIdempotent(s[1..]);
    }
  }

  lemma {:induction false} ToLowerShape(s: string)
    ensures |ToLower(s)| == |s|
    ensures forall i | 0 <= i < |s| :: ToLower(s)[i] == LowerChar(s[i])
  {
    if s != [] {
      ToLowerShape(s[1..]);
    }
  }

  /** Every character of `s` satisfies `p`. */
  predicate AllChars(s: string, p: char -> bool) {
    forall i | 0 <= i < |s| :: p(s[i])
  }

  /** `AllChars` stated by recursion, which unfolds on a string literal. */
  predicate AllCharsRec(s: string, p: char -> bool) {
    s == [] || (p(s[0]) && AllCharsRec(s[1..], p))
  }

  lemma {:induction false} AllCharsByRecursion(s: string, p: char -> bool)
    requires AllCharsRec(s, p)
    ensures AllChars(s, p)
  {
    if s != [] {
      AllCharsByRecursion(s[1..], p);
      assert forall i | 1 <= i < |s| :: s[i] == s[1..][i - 1];
    }
  }

  /** A property of every character of two strings holds of every character of the two joined. */
  lemma AllCharsJoined(a: string, b: string, p: char -> bool)
    requires AllChars(a, p) && AllChars(b, p)
    ensures AllChars(a + b, p)
  {
    forall i | 0 <= i < |a + b| ensures p((a + b)[i]) {
      if i >= |a| { assert (a + b)[i] == b[i - |a|]; }
    }
  }

  // ---------------------------------------------------------------- numbers as text

  function DigitChar(d: nat): char
    requires d < 10
  {
    ('0' as int + d) as char
  }

  /** Number of decimal digits of `n`. */
  function DigitCount(n: nat): nat {
    if n < 10 then 1 else 1 + DigitCount(n / 10)
  }

  /** `n.toString()` for a non-negative integer. */
  function NatToString(n: nat): string {
    if n < 10 then [DigitChar(n)] else NatToString(n / 10) + [DigitChar(n % 10)]
  }

  /** `n.toString()` for an integer. */
  function IntToString(i: int): string {
    if i < 0 then "-" + NatToString(-i) else NatToString(i)
  }

  /** The decimal text of `n` consists of exactly `DigitCount(n)` digits, without a leading zero. */
  lemma {:induction false} NatToStringDigits(n: nat)
    ensures |NatToString(n)| == DigitCount(n)
    ensures forall i | 0 <= i < |NatToString(n)| :: IsDigit(NatToString(n)[i])
    ensures n > 0 ==> NatToString(n)[0] != '0'
  {
    if n >= 10 {
      NatToStringDigits(n / 10);
    }
  }

  // ---------------------------------------------------------------- split, join, trim

  /** `s.split(sep)` for a one-character separator: the maximal runs between separators,
      including the empty ones at either end. */
  function Split(s: string, sep: char): (parts: seq<string>)
    ensures |parts| >= 1
  {
    if s == [] then [[]]
    else
      var rest := Split(s[1..], sep);
      if s[0] == sep then [[]] + rest else [[s[0]] + rest[0]] + rest[1..]
  }

  /** `parts.join(sep)`. */
  function Join(parts: seq<string>, sep: string): string {
    if |parts| == 0 then []
    else if |parts| == 1 then parts[0]
    else parts[0] + sep + Join(parts[1..], sep)
  }

  /** Splitting and joining back with the same separator gives the string back, and no part
      contains the separator. */
  lemma {:induction false} JoinSplit(s: string, sep: char)
    ensures Join(Split(s, sep), [sep]) == s
    ensures forall k, i | 0 <= k < |Split(s, sep)| && 0 <= i < |Split(s, sep)[k]| ::
              Split(s, sep)[k][i] != sep
  {
    if s != [] {
      var rest := Split(s[1..], sep);
      JoinSplit(s[1..], sep);
      if s[0] == sep {
        assert Split(s, sep) == [[]] + rest;
        assert Join([[]] + rest, [sep]) == [] + [sep] + Join(rest, [sep]);
        assert s == [sep] + s[1..];
      } else {
        var parts := [[s[0]] + rest[0]] + rest[1..];
        assert Split(s, sep) == parts;
        if |rest| == 1 {
          assert Join(parts, [sep]) == [s[0]] + rest[0];
          assert s == [s[0]] + s[1..];
        } else {
          assert parts[1..] == rest[1..];
          assert Join(rest, [sep]) == rest[0] + [sep] + Join(rest[1..], [sep]);
          assert Join(parts, [sep]) == [s[0]] + rest[0] + [sep] + Join(rest[1..], [sep]);
          assert s == [s[0]] + s[1..];
        }
        forall k, i | 0 <= k < |parts| && 0 <= i < |parts[k]|
          ensures parts[k][i] != sep
        {
          if k == 0 && i > 0 {
            assert parts[0][i] == rest[0][i - 1];
          } else if k > 0 {
            assert parts[k] == rest[k];
          }
        }
      }
    }
  }

  /** A string without the separator is a single part. */
  lemma {:induction false} SplitWithoutSeparator(w: string, sep: char)
    requires forall i | 0 <= i < |w| :: w[i] != sep
    ensures Split(w, sep) == [w]
  {
    if w != [] {
      SplitWithoutSeparator(w[1..], sep);
      assert [w[0]] + w[1..] == w;
    }
  }

  /** A part without the separator, then the separator: that part comes first, and the rest is
      split on its own. */
  lemma {:induction false} SplitAfterPart(w: string, t: string, sep: char)
    requires forall i | 0 <= i < |w| :: w[i] != sep
    ensures Split(w + [sep] + t, sep) == [w] + Split(t, sep)
  {
    if w == [] {
      assert w + [sep] + t == [sep] + t;
      assert ([sep] + t)[1..] == t;
    } else {
      SplitAfterPart(w[1..], t, sep);
      assert (w + [sep] + t)[1..] == w[1..] + [sep] + t;
      assert [w[0]] + w[1..] == w;
    }
  }

  function TrimStart(s: string): string {
    if s != [] && IsWhiteSpace(s[0]) then TrimStart(s[1..]) else s
  }

  function TrimEnd(s: string): string {
    if s != [] && IsWhiteSpace(s[|s| - 1]) then TrimEnd(s[..|s| - 1]) else s
  }

  /** `s.trim()` */
  function Trim(s: string): string {
    TrimEnd(TrimStart(s))
  }

  /** `trim` removes exactly the white space at either end. */
  lemma {:induction false} TrimShape(s: string)
    ensures Trim(s) != [] ==> !IsWhiteSpace(Trim(s)[0]) && !IsWhiteSpace(Trim(s)[|Trim(s)| - 1])
    ensures (s == [] || (!IsWhiteSpace(s[0]) && !IsWhiteSpace(s[|s| - 1]))) ==> Trim(s) == s
  {
    TrimStartShape(s);
    TrimEndShape(TrimStart(s));
    if Trim(s) != [] {
      TrimEndIsPrefix(TrimStart(s));
      var t := TrimStart(s);
      assert Trim(s) == t[..|Trim(s)|];
      assert Trim(s)[0] == t[0];
    }
  }

  lemma {:induction false} TrimStartShape(s: string)
    ensures TrimStart(s) != [] ==> !IsWhiteSpace(TrimStart(s)[0])
    ensures (s == [] || !IsWhiteSpace(s[0])) ==> TrimStart(s) == s
  {
    if s != [] && IsWhiteSpace(s[0]) {
      TrimStartShape(s[1..]);
    }
  }

  lemma {:induction false} TrimEndShape(s: string)
    ensures TrimEnd(s) != [] ==> !IsWhiteSpace(TrimEnd(s)[|TrimEnd(s)| - 1])
    ensures (s == [] || !IsWhiteSpace(s[|s| - 1])) ==> TrimEnd(s) == s
  {
    if s != [] && IsWhiteSpace(s[|s| - 1]) {
      TrimEndShape(s[..|s| - 1]);
    }
  }

  lemma {:induction false} TrimEndIsPrefix(s: string)
    ensures |TrimEnd(s)| <= |s| && TrimEnd(s) == s[..|TrimEnd(s)|]
  {
    if s != [] && IsWhiteSpace(s[|s| - 1]) {
      TrimEndIsPrefix(s[..|s| - 1]);
    }
  }

  // ---------------------------------------------------------------- slice, lastIndexOf

  /** How `slice` turns an argument into an index of a string of length `len`. */
  function ClampIndex(i: int, len: nat): (r: nat)
    ensures r <= len
    ensures 0 <= i <= len ==> r == i
  {
    if i < 0 then (if len + i < 0 then 0 else len + i) else if i > len then len else i
  }

  /** `s.slice(start, end)` */
  function Slice(s: string, start: int, end: int): string {
    var from := ClampIndex(start, |s|);
    var to := ClampIndex(end, |s|);
    if from < to then s[from..to] else []
  }

  /** `s.lastIndexOf(c)` for a one-character argument. */
  function LastIndexOf(s: string, c: char): (i: int)
    ensures -1 <= i < |s|
    ensures i >= 0 ==> s[i] == c && forall j | i < j < |s| :: s[j] != c
    ensures i == -1 ==> forall j | 0 <= j < |s| :: s[j] != c
  {
    if s == [] then -1 else if s[|s| - 1] == c then |s| - 1 else LastIndexOf(s[..|s| - 1], c)
  }

  // ---------------------------------------------------------------- parseInt

  /** The value of a digit in the given radix, letters counting from 10. */
  function DigitValue(c: char): nat {
    if IsDigit(c) then c as int - '0' as int
    else if IsLower(c) then c as int - 'a' as int + 10
    else if IsUpper(c) then c as int - 'A' as int + 10
    else 36
  }

  /** Length of the longest prefix of `s` made of digits of the radix. */
  function DigitPrefixLength(s: string, radix: nat): (k: nat)
    ensures k <= |s|
    ensures forall i | 0 <= i < k :: DigitValue(s[i]) < radix
    ensures k < |s| ==> DigitValue(s[k]) >= radix
  {
    if s == [] || DigitValue(s[0]) >= radix then 0 else 1 + DigitPrefixLength(s[1..], radix)
  }

  /** The number that a string of digits denotes in the radix. */
  function DigitsValue(ds: string, radix: nat): nat {
    if ds == [] then 0
    else DigitsValue(ds[..|ds| - 1], radix) * radix + DigitValue(ds[|ds| - 1])
  }

  /** `parseInt(s)` without a radix argument; `None` stands for NaN.  Leading white space and
      one sign are skipped, a `0x`/`0X` prefix selects radix 16, and the longest run of digits
      that follows is read; anything after it is ignored. */
  function ParseInt(s: string): Option<int> {
    var t := TrimStart(s);
    var negative := |t| > 0 && t[0] == '-';
    var u := if |t| > 0 && (t[0] == '-' || t[0] == '+') then t[1..] else t;
    var hex := |u| >= 2 && u[0] == '0' && (u[1] == 'x' || u[1] == 'X');
    var radix := if hex then 16 else 10;
    var digits := if hex then u[2..] else u;
    var k := DigitPrefixLength(digits, radix);
    if k == 0 then None
    else
      var magnitude: int := DigitsValue(digits[..k], radix);
      Some(if negative then -magnitude else magnitude)
  }

  lemma {:induction false} DigitsValueOfNatToString(n: nat)
    ensures DigitsValue(NatToString(n), 10) == n
  {
    if n >= 10 {
      DigitsValueOfNatToString(n / 10);
      var s := NatToString(n);
      assert s[..|s| - 1] == NatToString(n / 10);
    }
  }

  /** `parseInt` reads back the decimal text of a non-negative integer followed by a character
      that is not a digit (and does not turn a leading `0` into a hexadecimal prefix). */
  lemma ParseIntOfNatToString(n: nat, rest: string)
    requires rest == [] || (!IsDigit(rest[0]) && rest[0] != 'x' && rest[0] != 'X')
    ensures ParseInt(NatToString(n) + rest) == Some(n)
  {
    var s := NatToString(n) + rest;
    NatToStringDigits(n);
    DigitsValueOfNatToString(n);
    assert s[..|NatToString(n)|] == NatToString(n);
    assert TrimStart(s) == s;
    assert s[0] != '-' && s[0] != '+';
    DigitPrefixOfDigits(NatToString(n), rest);
  }

  lemma DigitPrefixOfDigits(ds: string, rest: string)
    requires forall i | 0 <= i < |ds| :: IsDigit(ds[i])
    requires rest == [] || !IsDigit(rest[0])
    ensures DigitPrefixLength(ds + rest, 10) == |ds|
  {
    var s := ds + rest;
    assert forall i | 0 <= i < |ds| :: s[i] == ds[i] && DigitValue(s[i]) < 10;
    assert rest != [] ==> s[|ds|] == rest[0] && DigitValue(s[|ds|]) >= 10;
  }

  /** The radix a `0x`, `0b` or `0o` prefix selects (either case of the letter), 0 for none. */
  function PrefixRadix(c: char): nat {
    if c == 'x' || c == 'X' then 16
    else if c == 'b' || c == 'B' then 2
    else if c == 'o' || c == 'O' then 8
    else 0
  }

  /** `Number(s)` for a string whose value is an integer written without a fraction or exponent:
      surrounding white space is ignored and the empty string is 0; `0x`, `0b` and `0o` followed
      by digits of that radix is their value, with no sign allowed; otherwise an optional sign
      followed by decimal digits is their value.  `None` is NaN, and also stands for the texts
      with a fraction, an exponent or `Infinity` that are not modelled. */
  function StringToNumber(s: string): Option<int> {
    var t := Trim(s);
    if t == [] then Some(0)
    else if 2 <= |t| && t[0] == '0' && PrefixRadix(t[1]) > 0 then
      var radix := PrefixRadix(t[1]);
      var digits := t[2..];
      if digits != [] && forall i | 0 <= i < |digits| :: DigitValue(digits[i]) < radix then
        Some(DigitsValue(digits, radix))
      else None
    else
      var negative := t[0] == '-';
      var digits := if t[0] == '-' || t[0] == '+' then t[1..] else t;
      if digits != [] && AllChars(digits, IsDigit) then
        var magnitude: int := DigitsValue(digits, 10);
        Some(if negative then -magnitude else magnitude)
      else None
  }


  /** `trimStart` keeps every character that is not white space. */
  lemma {:induction false} TrimStartKeeps(s: string, i: nat)
    requires i < |s| && !IsWhiteSpace(s[i])
    ensures s[i] in TrimStart(s)
  {
    if IsWhiteSpace(s[0]) {
      TrimStartKeeps(s[1..], i - 1);
    }
  }

  /** `trimEnd` keeps every character that is not white space. */
  lemma {:induction false} TrimEndKeeps(s: string, i: nat)
    requires i < |s| && !IsWhiteSpace(s[i])
    ensures s[i] in TrimEnd(s)
  {
    if IsWhiteSpace(s[|s| - 1]) {
      TrimEndKeeps(s[..|s| - 1], i);
    }
  }

  /** `Number` of a string with a character that is not white space, an ASCII letter or digit, a
      sign or a dot (a comma, say) is NaN: no numeric literal has such a character. */
  lemma NonNumericCharMakesNaN(s: string, i: nat)
    requires i < |s| && !IsWhiteSpace(s[i]) && !IsDigit(s[i]) && !IsAsciiLetter(s[i])
    requires s[i] != '-' && s[i] != '+' && s[i] != '.'
    ensures StringToNumber(s).None?
  {
    TrimStartKeeps(s, i);
    var u := TrimStart(s);
    var k :| 0 <= k < |u| && u[k] == s[i];
    TrimEndKeeps(u, k);
    var t := Trim(s);
    var q :| 0 <= q < |t| && t[q] == s[i];
    if 2 <= |t| && t[0] == '0' && PrefixRadix(t[1]) > 0 {
      assert 2 <= q && t[2..][q - 2] == s[i] && DigitValue(s[i]) == 36;
    } else if t[0] == '-' || t[0] == '+' {
      assert t[1..][q - 1] == s[i];
    }
  }

  /** `Number` reads a text with a radix prefix in that radix, and allows no sign before it. */
  lemma StringToNumberExamples()
    ensures StringToNumber("0x5") == Some(5) && StringToNumber("0B11") == Some(3)
    ensures StringToNumber("0o17") == Some(15)
    ensures StringToNumber("-0x5") == None && StringToNumber("0x") == None
  {
    TrimShape("0x5");
    TrimShape("0B11");
    TrimShape("0o17");
    TrimShape("-0x5");
    TrimShape("0x");
    assert DigitsValue("17", 8) == 15;
    assert DigitsValue("11", 2) == 3;
    assert "0x5"[2..] == "5" && DigitsValue("5", 16) == 5;
    assert "0B11"[2..] == "11" && "0o17"[2..] == "17";
    assert !IsDigit("0x5"[1..][0]);
  }

  /** `Number` skips the white space around a signed decimal text, and reads "" as 0. */
  lemma StringToNumberDecimalExamples()
    ensures StringToNumber(" -42 ") == Some(-42) && StringToNumber("") == Some(0)
  {
    assert Trim(" -42 ") == "-42";
    assert DigitsValue("42", 10) == 42;
    assert AllChars("42", IsDigit);
  }
}
