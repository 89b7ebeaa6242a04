/** `StringUtils`: the case converters, built from two regular-expression rewrites and
    split/map/join, the one-character case tests, and `toAlternateCasing`.  Case mapping is that
    of ASCII letters. */
module StringUtils {
  import opened JsStrings

  // ---------------------------------------------------------------- the two rewrites

  /** `[-_\s]` */
  predicate IsWordBreak(c: char) {
    c == '-' || c == '_' || IsWhiteSpace(c)
  }

  /** `s.replace(/([a-z])([A-Z])/g, "$1" + sep + "$2")`: scanning from the left, `sep` goes between a
      lower-case letter and the upper-case letter right after it, and the scan resumes after the
      pair. */
  function SplitCamel(s: string, sep: char): string {
    if |s| < 2 then s
    else if IsLower(s[0]) && IsUpper(s[1]) then [s[0], sep, s[1]] + SplitCamel(s[2..], sep)
    else [s[0]] + SplitCamel(s[1..], sep)
  }

  /** `s.replace(/[-_\s]+/g, sep)`: each maximal run of word breaks becomes one `sep`. */
  function Collapse(s: string, sep: char): string {
    if s == [] then []
    else if IsWordBreak(s[0]) then
      if |s| > 1 && IsWordBreak(s[1]) then Collapse(s[1..], sep) else [sep] + Collapse(s[1..], sep)
    else [s[0]] + Collapse(s[1..], sep)
  }

  /** The characters of `s` that are not word breaks, in order. */
  function NonBreaks(s: string): string {
    if s == [] then [] else (if IsWordBreak(s[0]) then [] else [s[0]]) + NonBreaks(s[1..])
  }

  // ---------------------------------------------------------------- the converters

  /** `word.charAt(0).toUpperCase() + word.slice(1).toLowerCase()` */
  function TitleWord(w: string): string {
    if w == [] then [] else [UpperChar(w[0])] + ToLower(w[1..])
  }

  /** `word.replace(/(^[a-z])/g, m => m.toUpperCase())` */
  function PascalWord(w: string): string {
    if w == [] then [] else [UpperChar(w[0])] + w[1..]
  }

  function TitleWords(ws: seq<string>): seq<string> {
    if ws == [] then [] else [TitleWord(ws[0])] + TitleWords(ws[1..])
  }

  function PascalWords(ws: seq<string>): seq<string> {
    if ws == [] then [] else [PascalWord(ws[0])] + PascalWords(ws[1..])
  }

  /** The first word lower-cased, every later word title-cased. */
  function CamelWords(ws: seq<string>): seq<string> {
    if ws == [] then [] else [ToLower(ws[0])] + TitleWords(ws[1..])
  }

  function ToTitleCase(input: string): string {
    Join(TitleWords(Split(Collapse(SplitCamel(input, ' '), ' '), ' ')), " ")
  }

  function ToSnakeCase(input: string): string {
    ToLower(Collapse(SplitCamel(input, '_'), '_'))
  }

  /** Unlike the others, it does not separate camel-case words first. */
  function ToCamelCase(input: string): string {
    Join(CamelWords(Split(Collapse(input, ' '), ' ')), "")
  }

  function ToPascalCase(input: string): string {
    Join(PascalWords(Split(Collapse(SplitCamel(input, ' '), ' '), ' ')), "")
  }

  function ToKebabCase(input: string): string {
    ToLower(Collapse(SplitCamel(input, '-'), '-'))
  }

  // ---------------------------------------------------------------- the case tests

  /** `+input` is a number rather than NaN, for a one-character string: a digit, or white space
      (which converts to 0). */
  predicate IsNumeric(c: char) {
    IsDigit(c) || IsWhiteSpace(c)
  }

  function IsUpperCase(input: string): bool {
    if |input| != 1 || IsNumeric(input[0]) then false else input == ToUpper(input)
  }

  function IsLowerCase(input: string): bool {
    if |input| != 1 || IsNumeric(input[0]) then false else input == ToLower(input)
  }

  /** An ASCII letter changes case; every other character stays. */
  function SwapCase(c: char): char {
    if IsUpper(c) then LowerChar(c) else if IsLower(c) then UpperChar(c) else c
  }

  /** Each character: lower-cased when `isUpperCase` holds of it, upper-cased otherwise. */
  method ToAlternateCasing(input: string) returns (result: string)
    ensures |result| == |input|
    ensures forall i | 0 <= i < |input| :: result[i] == SwapCase(input[i])
  {
    result := [];
    for i := 0 to |input|
      invariant |result| == i
      invariant forall j | 0 <= j < i :: result[j] == SwapCase(input[j])
    {
      var c := [input[i]];
      var piece := if IsUpperCase(c) then ToLower(c) else ToUpper(c);
      CaseTestsMeaning(c);
      assert ToLower(c) == [LowerChar(input[i])] && ToUpper(c) == [UpperChar(input[i])];
      assert piece == [SwapCase(input[i])];
      result := result + piece;
    }
  }

  // ---------------------------------------------------------------- the case tests: properties

  /** `isUpperCase` holds of exactly the one-character strings that are neither a digit, nor white
      space, nor a lower-case letter; `isLowerCase` likewise with upper-case letters. */
  lemma CaseTestsMeaning(input: string)
    ensures IsUpperCase(input) <==> |input| == 1 && !IsNumeric(input[0]) && !IsLower(input[0])
    ensures IsLowerCase(input) <==> |input| == 1 && !IsNumeric(input[0]) && !IsUpper(input[0])
  {
    if |input| == 1 {
      assert ToUpper(input) == [UpperChar(input[0])];
      assert ToLower(input) == [LowerChar(input[0])];
    }
  }

  /** A one-character symbol counts as both upper and lower case; a letter as exactly one. */
  lemma CaseTestVectors()
    ensures IsUpperCase("A") && !IsUpperCase("a") && !IsUpperCase("1") && !IsUpperCase("HELLO")
    ensures IsLowerCase("a") && !IsLowerCase("A") && !IsLowerCase("1") && !IsLowerCase("hello")
    ensures IsUpperCase("@") && IsLowerCase("@")
  {
    CaseTestsMeaning("A");
    CaseTestsMeaning("a");
    CaseTestsMeaning("@");
  }

  /** Swapping case twice gives the character back, so `toAlternateCasing` is its own inverse. */
  lemma SwapCaseInvolutive(c: char)
    ensures SwapCase(SwapCase(c)) == c
  {
  }

  // ---------------------------------------------------------------- the rewrites: properties

  /** No lower-case letter directly before an upper-case one. */
  predicate NoLowerUpper(r: string) {
    forall i | 0 <= i < |r| - 1 :: !(IsLower(r[i]) && IsUpper(r[i + 1]))
  }

  /** The scan leaves no lower-case letter directly before an upper-case one. */
  lemma {:induction false} SplitCamelSeparates(s: string, sep: char)
    requires !IsAsciiLetter(sep)
    ensures NoLowerUpper(SplitCamel(s, sep))
  {
    if |s| >= 2 {
      if IsLower(s[0]) && IsUpper(s[1]) {
        SplitCamelSeparates(s[2..], sep);
        var rest := SplitCamel(s[2..], sep);
        var r := [s[0], sep, s[1]] + rest;
        assert SplitCamel(s, sep) == r;
        forall i | 0 <= i < |r| - 1
          ensures !(IsLower(r[i]) && IsUpper(r[i + 1]))
        {
          if i >= 3 {
            assert r[i] == rest[i - 3] && r[i + 1] == rest[i - 2];
          } else if i == 2 {
            assert r[2] == s[1];
          } else {
            assert r[1] == sep;
          }
        }
      } else {
        SplitCamelSeparates(s[1..], sep);
        SplitCamelStart(s[1..], sep);
        var rest := SplitCamel(s[1..], sep);
        var r := [s[0]] + rest;
        assert SplitCamel(s, sep) == r;
        forall i | 0 <= i < |r| - 1
          ensures !(IsLower(r[i]) && IsUpper(r[i + 1]))
        {
          if i >= 1 {
            assert r[i] == rest[i - 1] && r[i + 1] == rest[i];
          } else {
            assert r[1] == s[1];
          }
        }
      }
    }
  }

  /** `NoLowerUpper` stated by recursion, which unfolds on a string literal. */
  predicate NoLowerUpperRec(s: string) {
    |s| < 2 || (!(IsLower(s[0]) && IsUpper(s[1])) && NoLowerUpperRec(s[1..]))
  }

  /** With no lower-case letter before an upper-case one the scan changes nothing. */
  lemma {:induction false} SplitCamelUnchanged(s: string, sep: char)
    requires NoLowerUpperRec(s)
    ensures SplitCamel(s, sep) == s
  {
    if |s| >= 2 {
      SplitCamelUnchanged(s[1..], sep);
      assert [s[0]] + s[1..] == s;
    }
  }

  /** Joining two such strings where the first does not end in a lower-case letter before the
      second's upper-case start keeps the property. */
  lemma {:induction false} NoLowerUpperJoin(a: string, b: string)
    requires NoLowerUpperRec(a) && NoLowerUpperRec(b)
    requires a == [] || b == [] || !(IsLower(a[|a| - 1]) && IsUpper(b[0]))
    ensures NoLowerUpperRec(a + b)
  {
    if a != [] {
      NoLowerUpperJoin(a[1..], b);
      assert (a + b)[1..] == a[1..] + b;
    } else {
      assert a + b == b;
    }
  }

  /** Two words of letters with a word break between them, neither with a lower-case letter
      before an upper-case one: the scan changes nothing. */
  lemma SplitCamelOfTwoWords(a: string, b: string, br: char, sep: char)
    requires NoLowerUpperRec(a) && NoLowerUpperRec(b) && IsWordBreak(br)
    ensures SplitCamel(a + [br] + b, sep) == a + [br] + b
  {
    NoLowerUpperJoin([br], b);
    NoLowerUpperJoin(a, [br] + b);
    assert a + [br] + b == a + ([br] + b);
    SplitCamelUnchanged(a + [br] + b, sep);
  }

  /** A word ending in a lower-case letter followed by one starting with an upper-case letter,
      neither with such a pair inside: the scan puts `sep` between them and nowhere else. */
  lemma {:induction false} SplitCamelAtBoundary(a: string, b: string, sep: char)
    requires NoLowerUpperRec(a) && NoLowerUpperRec(b)
    requires a != [] && b != [] && IsLower(a[|a| - 1]) && IsUpper(b[0])
    ensures SplitCamel(a + b, sep) == a + [sep] + b
  {
    if |a| == 1 {
      SplitCamelUnchanged(b[1..], sep);
      assert (a + b)[2..] == b[1..];
      assert [a[0], sep, b[0]] + b[1..] == a + [sep] + b;
    } else {
      SplitCamelAtBoundary(a[1..], b, sep);
      assert (a + b)[1..] == a[1..] + b;
      assert [a[0]] + (a[1..] + [sep] + b) == a + [sep] + b;
    }
  }

  lemma SplitCamelStart(s: string, sep: char)
    requires s != []
    ensures SplitCamel(s, sep) != [] && SplitCamel(s, sep)[0] == s[0]
  {
  }

  /** A separator that is itself a word break: inserting it keeps the other characters. */
  lemma {:induction false} SplitCamelKeepsNonBreaks(s: string, sep: char)
    requires IsWordBreak(sep)
    ensures NonBreaks(SplitCamel(s, sep)) == NonBreaks(s)
  {
    if |s| >= 2 {
      if IsLower(s[0]) && IsUpper(s[1]) {
        var t := SplitCamel(s[2..], sep);
        SplitCamelKeepsNonBreaks(s[2..], sep);
        assert SplitCamel(s, sep) == [s[0]] + ([sep] + ([s[1]] + t));
        NonBreaksCons(s[0], [sep] + ([s[1]] + t));
        NonBreaksCons(sep, [s[1]] + t);
        NonBreaksCons(s[1], t);
        assert s == [s[0]] + ([s[1]] + s[2..]);
        NonBreaksCons(s[0], [s[1]] + s[2..]);
        NonBreaksCons(s[1], s[2..]);
      } else {
        SplitCamelKeepsNonBreaks(s[1..], sep);
        NonBreaksCons(s[0], SplitCamel(s[1..], sep));
        NonBreaksCons(s[0], s[1..]);
        assert s == [s[0]] + s[1..];
      }
    }
  }

  lemma NonBreaksCons(c: char, t: string)
    ensures NonBreaks([c] + t) == (if IsWordBreak(c) then [] else [c]) + NonBreaks(t)
  {
    assert ([c] + t)[0] == c && ([c] + t)[1..] == t;
  }

  lemma {:induction false} NonBreaksAppend(a: string, b: string)
    ensures NonBreaks(a + b) == NonBreaks(a) + NonBreaks(b)
  {
    if a != [] {
      NonBreaksAppend(a[1..], b);
      assert (a + b)[0] == a[0] && (a + b)[1..] == a[1..] + b;
    } else {
      assert a + b == b;
    }
  }

  /** Lower-casing a character never gives an upper-case letter and never makes or unmakes a
      word break. */
  lemma LowerCharFacts(x: char)
    ensures !IsUpper(LowerChar(x))
    ensures LowerChar(LowerChar(x)) == LowerChar(x)
    ensures IsWordBreak(LowerChar(x)) <==> IsWordBreak(x)
    ensures IsWordBreak(x) ==> LowerChar(x) == x
  {
  }

  /** Collapsing runs of word breaks into a separator that is a word break keeps the other
      characters. */
  lemma {:induction false} CollapseKeepsNonBreaks(s: string, sep: char)
    requires IsWordBreak(sep)
    ensures NonBreaks(Collapse(s, sep)) == NonBreaks(s)
  {
    if s != [] {
      CollapseKeepsNonBreaks(s[1..], sep);
      NonBreaksCons(s[0], s[1..]);
      assert s == [s[0]] + s[1..];
      if IsWordBreak(s[0]) {
        if !(|s| > 1 && IsWordBreak(s[1])) {
          NonBreaksCons(sep, Collapse(s[1..], sep));
        }
      } else {
        NonBreaksCons(s[0], Collapse(s[1..], sep));
      }
    }
  }

  lemma CollapseStart(s: string, sep: char)
    requires s != [] && !IsWordBreak(s[0])
    ensures Collapse(s, sep) != [] && Collapse(s, sep)[0] == s[0]
  {
  }

  /** The only word break in `r` is `sep`. */
  predicate BreaksAreSep(r: string, sep: char) {
    forall i | 0 <= i < |r| :: IsWordBreak(r[i]) ==> r[i] == sep
  }

  /** `sep` never appears twice in a row in `r`. */
  predicate NoDoubleSep(r: string, sep: char) {
    forall i | 0 <= i < |r| - 1 :: !(r[i] == sep && r[i + 1] == sep)
  }

  /** After collapsing, the only word break left is the separator, never twice in a row. */
  lemma {:induction false} CollapseShape(s: string, sep: char)
    requires IsWordBreak(sep)
    ensures BreaksAreSep(Collapse(s, sep), sep) && NoDoubleSep(Collapse(s, sep), sep)
  {
    if s != [] {
      CollapseShape(s[1..], sep);
      var t := Collapse(s[1..], sep);
      if IsWordBreak(s[0]) && !(|s| > 1 && IsWordBreak(s[1])) {
        if |s| > 1 {
          CollapseStart(s[1..], sep);
        }
        assert Collapse(s, sep) == [sep] + t;
      } else if !IsWordBreak(s[0]) {
        assert Collapse(s, sep) == [s[0]] + t;
      }
    }
  }

  /** Lower-casing keeps which characters are word breaks. */
  lemma {:induction false} NonBreaksToLower(s: string)
    ensures NonBreaks(ToLower(s)) == ToLower(NonBreaks(s))
  {
    if s != [] {
      NonBreaksToLower(s[1..]);
      NonBreaksCons(LowerChar(s[0]), ToLower(s[1..]));
      ToLowerAppend(if IsWordBreak(s[0]) then [] else [s[0]], NonBreaks(s[1..]));
    }
  }

  /** `toSnakeCase` (with `_`) and `toKebabCase` (with `-`): the result has no upper-case letter,
      its only word break is the separator and never twice in a row, and its other characters are
      those of the input, in order, lower-cased. */
  lemma SeparatedCaseShape(s: string, sep: char)
    requires sep == '_' || sep == '-'
    ensures var r := ToLower(Collapse(SplitCamel(s, sep), sep));
      (forall i | 0 <= i < |r| :: !IsUpper(r[i]) && (IsWordBreak(r[i]) ==> r[i] == sep))
      && (forall i | 0 <= i < |r| - 1 :: !(r[i] == sep && r[i + 1] == sep))
      && NonBreaks(r) == ToLower(NonBreaks(s))
  {
    var c := Collapse(SplitCamel(s, sep), sep);
    var r := ToLower(c);
    CollapseShape(SplitCamel(s, sep), sep);
    ToLowerShape(c);
    forall i | 0 <= i < |r|
      ensures !IsUpper(r[i]) && (IsWordBreak(r[i]) ==> r[i] == sep)
      ensures r[i] == sep ==> c[i] == sep
    {
      assert r[i] == LowerChar(c[i]);
      assert IsWordBreak(c[i]) ==> c[i] == sep;
      LowerCharFacts(c[i]);
    }
    SplitCamelKeepsNonBreaks(s, sep);
    CollapseKeepsNonBreaks(SplitCamel(s, sep), sep);
    NonBreaksToLower(c);
  }

  lemma SnakeCaseShape(s: string)
    ensures var r := ToSnakeCase(s);
      (forall i | 0 <= i < |r| :: !IsUpper(r[i]) && r[i] != '-' && !IsWhiteSpace(r[i]))
      && (forall i | 0 <= i < |r| - 1 :: !(r[i] == '_' && r[i + 1] == '_'))
      && NonBreaks(r) == ToLower(NonBreaks(s))
  {
    SeparatedCaseShape(s, '_');
  }

  lemma KebabCaseShape(s: string)
    ensures var r := ToKebabCase(s);
      (forall i | 0 <= i < |r| :: !IsUpper(r[i]) && r[i] != '_' && !IsWhiteSpace(r[i]))
      && (forall i | 0 <= i < |r| - 1 :: !(r[i] == '-' && r[i + 1] == '-'))
      && NonBreaks(r) == ToLower(NonBreaks(s))
  {
    SeparatedCaseShape(s, '-');
  }

  // ---------------------------------------------------------------- words to characters

  /** The character-level reading of "transform each space-separated word, then join": the
      character that starts a word (the first one counts when `atStart`) goes through `initial`,
      every other one through `later`; spaces are kept as spaces when `keep` and dropped
      otherwise. */
  function Recase(c: string, atStart: bool, initial: char -> char, later: char -> char, keep: bool): string {
    if c == [] then []
    else if c[0] == ' ' then (if keep then " " else "") + Recase(c[1..], true, initial, later, keep)
    else [if atStart then initial(c[0]) else later(c[0])] + Recase(c[1..], false, initial, later, keep)
  }

  function MapChars(s: string, f: char -> char): string {
    if s == [] then [] else [f(s[0])] + MapChars(s[1..], f)
  }

  /** The word-level transform `Recase` reads: a word's first character through `initial`, unless
      it is the first word and not `atStart`. */
  function RecaseWords(ws: seq<string>, atStart: bool, initial: char -> char, later: char -> char): seq<string> {
    if ws == [] then []
    else
      var w := ws[0];
      [if w == [] then [] else [if atStart then initial(w[0]) else later(w[0])] + MapChars(w[1..], later)]
        + RecaseWords(ws[1..], true, initial, later)
  }

  /** Putting `p` in front of the first part puts it in front of the joined string. */
  lemma JoinPrepend(p: string, ws: seq<string>, sep: string)
    requires ws != []
    ensures Join([p + ws[0]] + ws[1..], sep) == p + Join(ws, sep)
  {
    if |ws| > 1 {
      assert ([p + ws[0]] + ws[1..])[1..] == ws[1..];
    }
  }

  /** Splitting at spaces, transforming the words and joining them (with a space when `keep`,
      with nothing otherwise) is `Recase`. */
  lemma {:induction false} RecaseBySplit(c: string, atStart: bool, initial: char -> char, later: char -> char, keep: bool)
    ensures Join(RecaseWords(Split(c, ' '), atStart, initial, later), if keep then " " else "")
      == Recase(c, atStart, initial, later, keep)
  {
    var sep := if keep then " " else "";
    if c != [] {
      var rest := Split(c[1..], ' ');
      if c[0] == ' ' {
        RecaseBySplit(c[1..], true, initial, later, keep);
        assert Split(c, ' ') == [[]] + rest;
        assert RecaseWords([[]] + rest, atStart, initial, later) == [[]] + RecaseWords(rest, true, initial, later);
      } else {
        RecaseBySplit(c[1..], false, initial, later, keep);
        var head := [if atStart then initial(c[0]) else later(c[0])];
        var words := RecaseWords(rest, false, initial, later);
        assert ([c[0]] + rest[0])[1..] == rest[0];
        assert Split(c, ' ') == [[c[0]] + rest[0]] + rest[1..];
        assert RecaseWords(Split(c, ' '), atStart, initial, later) == [head + words[0]] + words[1..];
        JoinPrepend(head, words, sep);
      }
    }
  }

  lemma {:induction false} ToLowerIsMapChars(s: string)
    ensures ToLower(s) == MapChars(s, LowerChar)
  {
    if s != [] {
      ToLowerIsMapChars(s[1..]);
    }
  }

  lemma {:induction false} MapCharsIdentity(s: string)
    ensures MapChars(s, c => c) == s
  {
    if s != [] {
      MapCharsIdentity(s[1..]);
    }
  }

  lemma {:induction false} TitleWordsAreRecaseWords(ws: seq<string>)
    ensures TitleWords(ws) == RecaseWords(ws, true, UpperChar, LowerChar)
  {
    if ws != [] {
      TitleWordsAreRecaseWords(ws[1..]);
      if ws[0] != [] {
        ToLowerIsMapChars(ws[0][1..]);
      }
    }
  }

  lemma {:induction false} PascalWordsAreRecaseWords(ws: seq<string>)
    ensures PascalWords(ws) == RecaseWords(ws, true, UpperChar, c => c)
  {
    if ws != [] {
      PascalWordsAreRecaseWords(ws[1..]);
      if ws[0] != [] {
        MapCharsIdentity(ws[0][1..]);
      }
    }
  }

  /** Title case is the joined words' characters, spaces kept, each one upper-cased when it starts
      a word and lower-cased otherwise. */
  lemma TitleCaseIsRecase(s: string)
    ensures ToTitleCase(s) == Recase(Collapse(SplitCamel(s, ' '), ' '), true, UpperChar, LowerChar, true)
  {
    var c := Collapse(SplitCamel(s, ' '), ' ');
    TitleWordsAreRecaseWords(Split(c, ' '));
    RecaseBySplit(c, true, UpperChar, LowerChar, true);
  }

  /** Camel case drops the spaces, upper-cases the character that starts every word but the first
      and lower-cases every other character. */
  lemma CamelCaseIsRecase(s: string)
    ensures ToCamelCase(s) == Recase(Collapse(s, ' '), false, UpperChar, LowerChar, false)
  {
    var ws := Split(Collapse(s, ' '), ' ');
    TitleWordsAreRecaseWords(ws[1..]);
    ToLowerIsMapChars(ws[0]);
    if ws[0] != [] {
      ToLowerIsMapChars(ws[0][1..]);
    }
    assert CamelWords(ws) == RecaseWords(ws, false, UpperChar, LowerChar);
    RecaseBySplit(Collapse(s, ' '), false, UpperChar, LowerChar, false);
  }

  /** Pascal case drops the spaces and upper-cases the lower-case letter that starts a word,
      leaving every other character as it is. */
  lemma PascalCaseIsRecase(s: string)
    ensures ToPascalCase(s) == Recase(Collapse(SplitCamel(s, ' '), ' '), true, UpperChar, c => c, false)
  {
    var c := Collapse(SplitCamel(s, ' '), ' ');
    PascalWordsAreRecaseWords(Split(c, ' '));
    RecaseBySplit(c, true, UpperChar, c => c, false);
  }

  /** With spaces kept, `Recase` is character by character. */
  lemma {:induction false} RecaseKeepingSpaces(c: string, atStart: bool, initial: char -> char, later: char -> char)
    requires initial(' ') == ' ' && later(' ') == ' '
    ensures var r := Recase(c, atStart, initial, later, true);
      |r| == |c|
      && forall i | 0 <= i < |c| ::
           r[i] == if (i == 0 && atStart) || (i > 0 && c[i - 1] == ' ') then initial(c[i]) else later(c[i])
  {
    if c != [] {
      RecaseKeepingSpaces(c[1..], c[0] == ' ', initial, later);
    }
  }

  /** `r` is `c` with the character at the start and after each space upper-cased and every
      other one lower-cased. */
  predicate TitleCased(r: string, c: string) {
    |r| == |c|
    && forall i | 0 <= i < |r| ::
         r[i] == if i == 0 || c[i - 1] == ' ' then UpperChar(c[i]) else LowerChar(c[i])
  }

  /** Title case, character by character: the character at the start and after each space is
      upper-cased and every other one lower-cased. */
  lemma TitleCaseChars(s: string)
    ensures TitleCased(ToTitleCase(s), Collapse(SplitCamel(s, ' '), ' '))
  {
    var c := Collapse(SplitCamel(s, ' '), ' ');
    TitleCaseIsRecase(s);
    RecaseKeepingSpaces(c, true, UpperChar, LowerChar);
  }

  /** In title case the only word break left is a single space between words, and no other
      character is added or lost. */
  lemma TitleCaseShape(s: string)
    ensures BreaksAreSep(ToTitleCase(s), ' ') && NoDoubleSep(ToTitleCase(s), ' ')
    ensures ToLower(NonBreaks(ToTitleCase(s))) == ToLower(NonBreaks(s))
  {
    var c := Collapse(SplitCamel(s, ' '), ' ');
    var r := ToTitleCase(s);
    TitleCaseChars(s);
    assert TitleCased(r, c);
    CollapseShape(SplitCamel(s, ' '), ' ');
    forall i | 0 <= i < |r|
      ensures LowerChar(r[i]) == LowerChar(c[i])
      ensures IsWordBreak(r[i]) <==> IsWordBreak(c[i])
      ensures IsWordBreak(c[i]) ==> r[i] == c[i]
    {
      assert r[i] == if i == 0 || c[i - 1] == ' ' then UpperChar(c[i]) else LowerChar(c[i]);
      UpperCharFacts(c[i]);
      LowerCharFacts(c[i]);
    }
    SameUpToCase(r, c);
    SplitCamelKeepsNonBreaks(s, ' ');
    CollapseKeepsNonBreaks(SplitCamel(s, ' '), ' ');
  }

  lemma UpperCharFacts(x: char)
    ensures LowerChar(UpperChar(x)) == LowerChar(x)
    ensures IsWordBreak(UpperChar(x)) <==> IsWordBreak(x)
    ensures IsWordBreak(x) ==> UpperChar(x) == x
  {
  }

  /** Two strings that agree up to case, with the same word breaks, have the same non-breaks up
      to case. */
  lemma {:induction false} SameUpToCase(a: string, b: string)
    requires |a| == |b|
    requires forall i | 0 <= i < |a| :: LowerChar(a[i]) == LowerChar(b[i])
    requires forall i | 0 <= i < |a| :: IsWordBreak(a[i]) <==> IsWordBreak(b[i])
    ensures ToLower(NonBreaks(a)) == ToLower(NonBreaks(b))
  {
    if a != [] {
      assert forall i | 0 <= i < |a| - 1 :: a[1..][i] == a[i + 1] && b[1..][i] == b[i + 1];
      SameUpToCase(a[1..], b[1..]);
      NonBreaksToLower(a);
      NonBreaksToLower(b);
      NonBreaksCons(LowerChar(a[0]), ToLower(a[1..]));
      NonBreaksCons(LowerChar(b[0]), ToLower(b[1..]));
      NonBreaksToLower(a[1..]);
      NonBreaksToLower(b[1..]);
      LowerCharFacts(a[0]);
      LowerCharFacts(b[0]);
    }
  }

  /** With spaces dropped and `initial` and `later` keeping non-breaks non-breaks, nothing
      `Recase` returns is a word break when its input has no word break but spaces. */
  lemma {:induction false} RecaseDroppingSpaces(c: string, atStart: bool, initial: char -> char, later: char -> char)
    requires BreaksAreSep(c, ' ')
    requires forall x :: !IsWordBreak(x) ==> !IsWordBreak(initial(x)) && !IsWordBreak(later(x))
    ensures HasNoBreak(Recase(c, atStart, initial, later, false))
  {
    if c != [] {
      assert forall i | 0 <= i < |c| - 1 :: c[1..][i] == c[i + 1];
      RecaseDroppingSpaces(c[1..], c[0] == ' ', initial, later);
      var rest := Recase(c[1..], c[0] == ' ', initial, later, false);
      if c[0] != ' ' {
        assert !IsWordBreak(c[0]);
        assert !IsWordBreak(initial(c[0])) && !IsWordBreak(later(c[0]));
        var r := [if atStart then initial(c[0]) else later(c[0])] + rest;
        assert Recase(c, atStart, initial, later, false) == r;
        assert !IsWordBreak(r[0]);
        assert forall i | 1 <= i < |r| :: r[i] == rest[i - 1];
      } else {
        assert Recase(c, atStart, initial, later, false) == rest;
      }
    }
  }

  predicate HasNoBreak(r: string) {
    forall i | 0 <= i < |r| :: !IsWordBreak(r[i])
  }

  /** Camel case has no word break and, up to case, the input's other characters in order. */
  lemma CamelCaseShape(s: string)
    ensures HasNoBreak(ToCamelCase(s))
    ensures ToLower(ToCamelCase(s)) == ToLower(NonBreaks(s))
  {
    var c := Collapse(s, ' ');
    CamelCaseIsRecase(s);
    CollapseShape(s, ' ');
    RecaseDroppingSpaces(c, false, UpperChar, LowerChar);
    var r := ToCamelCase(s);
    RecaseLowered(c, false, UpperChar, LowerChar);
    CollapseKeepsNonBreaks(s, ' ');
    NonBreaksOfSpaced(c);
  }

  /** Pascal case has no word break and, up to case, the input's other characters in order. */
  lemma PascalCaseShape(s: string)
    ensures HasNoBreak(ToPascalCase(s))
    ensures ToLower(ToPascalCase(s)) == ToLower(NonBreaks(s))
  {
    var c := Collapse(SplitCamel(s, ' '), ' ');
    PascalCaseIsRecase(s);
    CollapseShape(SplitCamel(s, ' '), ' ');
    RecaseDroppingSpaces(c, true, UpperChar, c => c);
    RecaseLowered(c, true, UpperChar, c => c);
    SplitCamelKeepsNonBreaks(s, ' ');
    CollapseKeepsNonBreaks(SplitCamel(s, ' '), ' ');
    NonBreaksOfSpaced(c);
  }

  /** Up to case, dropping spaces with `Recase` is removing them, for transforms that only change
      case. */
  lemma {:induction false} RecaseLowered(c: string, atStart: bool, initial: char -> char, later: char -> char)
    requires forall x :: LowerChar(initial(x)) == LowerChar(x) && LowerChar(later(x)) == LowerChar(x)
    ensures ToLower(Recase(c, atStart, initial, later, false)) == ToLower(RemoveSpaces(c))
  {
    if c != [] {
      RecaseLowered(c[1..], c[0] == ' ', initial, later);
      var rest := Recase(c[1..], c[0] == ' ', initial, later, false);
      if c[0] != ' ' {
        var x := if atStart then initial(c[0]) else later(c[0]);
        assert LowerChar(x) == LowerChar(c[0]);
        ToLowerAppend([x], rest);
        ToLowerAppend([c[0]], RemoveSpaces(c[1..]));
        assert ToLower([x]) == [LowerChar(x)];
        assert ToLower([c[0]]) == [LowerChar(c[0])];
      } else {
        assert Recase(c, atStart, initial, later, false) == rest;
        assert RemoveSpaces(c) == RemoveSpaces(c[1..]);
      }
    }
  }

  function RemoveSpaces(c: string): string {
    if c == [] then [] else (if c[0] == ' ' then [] else [c[0]]) + RemoveSpaces(c[1..])
  }

  /** When spaces are the only word breaks, removing them leaves the non-breaks. */
  lemma {:induction false} NonBreaksOfSpaced(c: string)
    requires forall i | 0 <= i < |c| :: IsWordBreak(c[i]) ==> c[i] == ' '
    ensures RemoveSpaces(c) == NonBreaks(c)
  {
    if c != [] {
      NonBreaksOfSpaced(c[1..]);
    }
  }

  // ---------------------------------------------------------------- words of letters

  /** A word of ASCII letters passes through the collapsing rewrite unchanged. */
  lemma {:induction false} CollapseLettersThen(w: string, t: string, sep: char)
    requires AllChars(w, IsAsciiLetter)
    ensures Collapse(w + t, sep) == w + Collapse(t, sep)
  {
    if w != [] {
      assert AllChars(w[1..], IsAsciiLetter) by {
        forall i | 0 <= i < |w[1..]| ensures IsAsciiLetter(w[1..][i]) {
          assert w[1..][i] == w[i + 1];
        }
      }
      CollapseLettersThen(w[1..], t, sep);
      assert (w + t)[0] == w[0] && (w + t)[1..] == w[1..] + t;
      assert IsAsciiLetter(w[0]);
    } else {
      assert w + t == t;
    }
  }

  /** A lone word break followed by a non-break becomes one separator. */
  lemma CollapseBreakThen(b: char, t: string, sep: char)
    requires IsWordBreak(b)
    requires t == [] || !IsWordBreak(t[0])
    ensures Collapse([b] + t, sep) == [sep] + Collapse(t, sep)
  {
    assert ([b] + t)[1..] == t;
  }

  /** A run of two word breaks collapses as its second one does. */
  lemma CollapseBreakRun(b: char, t: string, sep: char)
    requires IsWordBreak(b) && t != [] && IsWordBreak(t[0])
    ensures Collapse([b] + t, sep) == Collapse(t, sep)
  {
    assert ([b] + t)[1..] == t;
  }

  /** Two words of letters with one word break between them: the break becomes the separator. */
  lemma CollapseTwoWords(a: string, b: string, br: char, sep: char)
    requires AllChars(a, IsAsciiLetter) && AllChars(b, IsAsciiLetter) && IsWordBreak(br)
    ensures Collapse(a + [br] + b, sep) == a + [sep] + b
  {
    var t := [br] + b;
    CollapseLettersThen(a, t, sep);
    if b != [] {
      assert IsAsciiLetter(b[0]);
    }
    CollapseBreakThen(br, b, sep);
    CollapseLettersThen(b, [], sep);
    assert b + [] == b;
    assert a + [br] + b == a + t;
    assert a + ([sep] + b) == a + [sep] + b;
  }

  /** Two words of letters joined by a separator that is not a letter split back into the two. */
  lemma SplitTwoWords(a: string, b: string, sep: char)
    requires AllChars(a, IsAsciiLetter) && AllChars(b, IsAsciiLetter) && !IsAsciiLetter(sep)
    ensures Split(a + [sep] + b, sep) == [a, b]
  {
    SplitAfterPart(a, b, sep);
    SplitWithoutSeparator(b, sep);
  }

  lemma JoinTwo(a: string, b: string, sep: string)
    ensures Join([a, b], sep) == a + sep + b
  {
    assert [a, b][1..] == [b];
  }

  /** Two words of letters with one word break between them (once camel-case words are
      separated): title case is the two words title-cased, with a space between. */
  lemma TitleCaseOfTwoWords(input: string, a: string, b: string, br: char)
    requires AllChars(a, IsAsciiLetter) && AllChars(b, IsAsciiLetter) && IsWordBreak(br)
    requires SplitCamel(input, ' ') == a + [br] + b
    ensures ToTitleCase(input) == TitleWord(a) + " " + TitleWord(b)
  {
    CollapseTwoWords(a, b, br, ' ');
    SplitTwoWords(a, b, ' ');
    assert [a, b][1..] == [b] && [b][1..] == [];
    assert TitleWords([b]) == [TitleWord(b)];
    assert TitleWords([a, b]) == [TitleWord(a)] + TitleWords([b]);
    JoinTwo(TitleWord(a), TitleWord(b), " ");
  }

  /** Pascal case of two such words: each word's first letter upper-cased, nothing between. */
  lemma PascalCaseOfTwoWords(input: string, a: string, b: string, br: char)
    requires AllChars(a, IsAsciiLetter) && AllChars(b, IsAsciiLetter) && IsWordBreak(br)
    requires SplitCamel(input, ' ') == a + [br] + b
    ensures ToPascalCase(input) == PascalWord(a) + PascalWord(b)
  {
    CollapseTwoWords(a, b, br, ' ');
    SplitTwoWords(a, b, ' ');
    assert [a, b][1..] == [b] && [b][1..] == [];
    assert PascalWords([b]) == [PascalWord(b)];
    assert PascalWords([a, b]) == [PascalWord(a)] + PascalWords([b]);
    JoinTwo(PascalWord(a), PascalWord(b), "");
  }

  /** Camel case of two words of letters with one word break between them: the first word
      lower-cased, the second title-cased, nothing between. */
  lemma CamelCaseOfTwoWords(input: string, a: string, b: string, br: char)
    requires AllChars(a, IsAsciiLetter) && AllChars(b, IsAsciiLetter) && IsWordBreak(br)
    requires input == a + [br] + b
    ensures ToCamelCase(input) == ToLower(a) + TitleWord(b)
  {
    CollapseTwoWords(a, b, br, ' ');
    SplitTwoWords(a, b, ' ');
    assert [a, b][1..] == [b] && [b][1..] == [];
    assert TitleWords([b]) == [TitleWord(b)];
    assert CamelWords([a, b]) == [ToLower(a)] + TitleWords([b]);
    JoinTwo(ToLower(a), TitleWord(b), "");
  }

  /** Snake case (with `_`) and kebab case (with `-`) of two such words: both lower-cased, with
      the separator between. */
  lemma SeparatedCaseOfTwoWords(input: string, a: string, b: string, br: char, sep: char)
    requires sep == '_' || sep == '-'
    requires AllChars(a, IsAsciiLetter) && AllChars(b, IsAsciiLetter) && IsWordBreak(br)
    requires SplitCamel(input, sep) == a + [br] + b
    ensures ToLower(Collapse(SplitCamel(input, sep), sep)) == ToLower(a) + [sep] + ToLower(b)
  {
    CollapseTwoWords(a, b, br, sep);
    ToLowerAppend(a + [sep], b);
    ToLowerAppend(a, [sep]);
    assert ToLower([sep]) == [sep];
  }

  /** A single word of letters: camel case only lower-cases it, so a camel-case input loses its
      word boundary. */
  lemma CamelCaseOfOneWord(w: string)
    requires AllChars(w, IsAsciiLetter)
    ensures ToCamelCase(w) == ToLower(w)
  {
    CollapseLettersThen(w, [], ' ');
    assert w + [] == w;
    SplitWithoutSeparator(w, ' ');
    assert CamelWords([w]) == [ToLower(w)];
  }
}
