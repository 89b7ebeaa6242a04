/** The string utilities on the inputs their documentation uses.  Each converter's result is
    first stated word by word, then as the literal text. */
module StringUtilsExamples {
  import opened JsStrings
  import opened StringUtils

  lemma LetterWords()
    ensures AllChars("hello", IsAsciiLetter) && AllChars("world", IsAsciiLetter)
    ensures AllChars("Hello", IsAsciiLetter) && AllChars("World", IsAsciiLetter)
    ensures NoLowerUpperRec("hello") && NoLowerUpperRec("world")
    ensures NoLowerUpperRec("Hello") && NoLowerUpperRec("World")
  {
    AllCharsByRecursion("hello", IsAsciiLetter);
    AllCharsByRecursion("world", IsAsciiLetter);
    AllCharsByRecursion("Hello", IsAsciiLetter);
    AllCharsByRecursion("World", IsAsciiLetter);
  }

  // ---------------------------------------------------------------- word by word

  /** Title case reads "helloWorld" as two words. */
  lemma TitleCaseOfCamelInputWords()
    ensures ToTitleCase("helloWorld") == TitleWord("hello") + " " + TitleWord("World")
  {
    LetterWords();
    assert "helloWorld" == "hello" + "World";
    SplitCamelAtBoundary("hello", "World", ' ');
    TitleCaseOfTwoWords("helloWorld", "hello", "World", ' ');
  }

  /** Kebab case reads "helloWorld" as two words. */
  lemma KebabCaseOfCamelInputWords()
    ensures ToKebabCase("helloWorld") == ToLower("hello") + "-" + ToLower("World")
  {
    LetterWords();
    assert "helloWorld" == "hello" + "World";
    SplitCamelAtBoundary("hello", "World", '-');
    SeparatedCaseOfTwoWords("helloWorld", "hello", "World", '-', '-');
  }

  lemma SnakeCaseOfSpacedInputWords()
    ensures ToSnakeCase("Hello World") == ToLower("Hello") + "_" + ToLower("World")
  {
    LetterWords();
    assert "Hello World" == "Hello" + [' '] + "World";
    SplitCamelOfTwoWords("Hello", "World", ' ', '_');
    SeparatedCaseOfTwoWords("Hello World", "Hello", "World", ' ', '_');
  }

  lemma CamelCaseOfSnakeInputWords()
    ensures ToCamelCase("hello_world") == ToLower("hello") + TitleWord("world")
  {
    LetterWords();
    assert "hello_world" == "hello" + ['_'] + "world";
    CamelCaseOfTwoWords("hello_world", "hello", "world", '_');
  }

  lemma PascalCaseOfKebabInputWords()
    ensures ToPascalCase("hello-world") == PascalWord("hello") + PascalWord("world")
  {
    LetterWords();
    assert "hello-world" == "hello" + ['-'] + "world";
    SplitCamelOfTwoWords("hello", "world", '-', ' ');
    PascalCaseOfTwoWords("hello-world", "hello", "world", '-');
  }

  // ---------------------------------------------------------------- the words' cases

  lemma TitleHelloWorld()
    ensures TitleWord("hello") + " " + TitleWord("World") == "Hello World"
  {
    assert TitleWord("hello") == "Hello";
    assert TitleWord("World") == "World";
  }

  lemma LowerHelloWorld()
    ensures ToLower("hello") + "-" + ToLower("World") == "hello-world"
  {
    assert ToLower("hello") == "hello";
    assert ToLower("World") == "world";
  }

  lemma LowerSpacedHelloWorld()
    ensures ToLower("Hello") + "_" + ToLower("World") == "hello_world"
  {
    assert ToLower("Hello") == "hello";
    assert ToLower("World") == "world";
  }

  lemma CamelHelloWorld()
    ensures ToLower("hello") + TitleWord("world") == "helloWorld"
  {
    assert ToLower("hello") == "hello";
    assert TitleWord("world") == "World";
  }

  lemma PascalHelloWorld()
    ensures PascalWord("hello") + PascalWord("world") == "HelloWorld"
  {
    assert PascalWord("hello") == "Hello";
    assert PascalWord("world") == "World";
  }

  // ---------------------------------------------------------------- as text

  lemma TitleCaseOfCamelInput()
    ensures ToTitleCase("helloWorld") == "Hello World"
  {
    TitleCaseOfCamelInputWords();
    TitleHelloWorld();
  }

  lemma KebabCaseOfCamelInput()
    ensures ToKebabCase("helloWorld") == "hello-world"
  {
    KebabCaseOfCamelInputWords();
    LowerHelloWorld();
  }

  lemma SnakeCaseOfSpacedInput()
    ensures ToSnakeCase("Hello World") == "hello_world"
  {
    SnakeCaseOfSpacedInputWords();
    LowerSpacedHelloWorld();
  }

  lemma CamelCaseOfSnakeInput()
    ensures ToCamelCase("hello_world") == "helloWorld"
  {
    CamelCaseOfSnakeInputWords();
    CamelHelloWorld();
  }

  lemma PascalCaseOfKebabInput()
    ensures ToPascalCase("hello-world") == "HelloWorld"
  {
    PascalCaseOfKebabInputWords();
    PascalHelloWorld();
  }

  lemma CamelInputLetters()
    ensures ToCamelCase("helloWorld") == ToLower("helloWorld")
  {
    AllCharsByRecursion("helloWorld", IsAsciiLetter);
    CamelCaseOfOneWord("helloWorld");
  }

  lemma LowerCamelInput()
    ensures ToLower("helloWorld") == "helloworld"
  {
  }

  /** Camel case does not separate camel-case words first, so it lower-cases "helloWorld" whole. */
  lemma CamelCaseOfCamelInput()
    ensures ToCamelCase("helloWorld") == "helloworld"
  {
    CamelInputLetters();
    LowerCamelInput();
  }

  /** Every converter maps the empty string to itself. */
  lemma EmptyInput()
    ensures ToTitleCase("") == "" && ToSnakeCase("") == "" && ToCamelCase("") == ""
    ensures ToPascalCase("") == "" && ToKebabCase("") == ""
  {
    assert Split([], ' ') == [[]];
  }

  /** `toAlternateCasing("Hello 123")` swaps the letters' case and keeps the rest. */
  method AlternateCasingExample() returns (r: string)
    ensures r == "hELLO 123"
  {
    r := ToAlternateCasing("Hello 123");
  }
}
