/** `validate_word`: the classifier that decides whether a submitted word is
    accepted into the story. */
module Validation {

  import opened Text

  /** One character of the regular-expression class `[a-zA-Z'-]`. */
  predicate IsWordChar(c: char) {
    ('a' <= c <= 'z') || ('A' <= c <= 'Z') || c == '\'' || c == '-'
  }

  predicate AllWordChars(s: string) {
    forall i :: 0 <= i < |s| ==> IsWordChar(s[i])
  }

  /** `re.match(r"^[a-zA-Z'-]+$", s)` succeeds. Without MULTILINE, Python's
      `$` matches at the very end of the string and also just before a final
      newline, so one trailing "\n" is let through. */
  predicate MatchesWordPattern(s: string) {
    || (|s| > 0 && AllWordChars(s))
    || (|s| > 1 && s[|s| - 1] == '\n' && AllWordChars(s[..|s| - 1]))
  }

  /** The four outcomes of `validate_word`. */
  datatype Verdict = Valid | Empty | MultipleWords | InvalidCharacters

  /** The message `validate_word` returns beside its verdict. */
  function Message(v: Verdict): string {
    match v
    case Valid => "Valid"
    case Empty => "Word is empty"
    case MultipleWords => "Only single words allowed"
    case InvalidCharacters => "Word contains invalid characters"
  }

  /** `validate_word(word)`: the checks in their fixed order. */
  function ValidateWord(word: string): Verdict
  {
    if word == "" then Empty
    else if |Split(word)| > 1 then MultipleWords
    else if !MatchesWordPattern(word) then InvalidCharacters
    else Valid
  }

  /** The input the script validates has been stripped. On such an input the
      verdict is decided without `split` or regular expressions: empty, then
      any whitespace, then any character outside `[a-zA-Z'-]`. */
  lemma ValidateStripped(word: string)
    requires IsStripped(word)
    ensures ValidateWord(word) == Empty <==> word == ""
    ensures ValidateWord(word) == MultipleWords <==> word != "" && !NoSpace(word)
    ensures ValidateWord(word) == InvalidCharacters <==>
              word != "" && NoSpace(word) && !AllWordChars(word)
    ensures ValidateWord(word) == Valid <==> word != "" && AllWordChars(word)
  {
    if word != "" {
      SplitStripped(word);
    }
  }

  /** A character of `[a-zA-Z'-]` is never whitespace. */
  lemma WordCharsHaveNoSpace(s: string)
    requires AllWordChars(s)
    ensures NoSpace(s)
  {
    forall i | 0 <= i < |s| ensures !IsSpace(s[i]) {
      assert IsWordChar(s[i]);
    }
  }

  /** Every word the script accepts is non-empty, made only of ASCII letters,
      `'` and `-`, hence a whitespace-free token that `split()` keeps whole. */
  lemma AcceptedWordIsToken(word: string)
    requires IsStripped(word) && ValidateWord(word) == Valid
    ensures word != "" && AllWordChars(word)
    ensures IsToken(word) && Split(word) == [word]
  {
    ValidateStripped(word);
    WordCharsHaveNoSpace(word);
    SplitOfToken(word);
  }

  /** On its own, `validate_word` accepts a word followed by one newline,
      because `$` matches before a final "\n". The script never passes such a
      word: it strips `WORD` first. */
  lemma TrailingNewlineAccepted()
    ensures ValidateWord("ok\n") == Valid
    ensures Strip("ok\n") == "ok"
  {
    var s := "ok\n";
    assert TokenEnd(s) == 2 by { TokenEndAt(s, 2); }
    assert s[2..] == "\n";
    assert Split(s[2..]) == [] by { SplitEmpty(s[2..]); }
    assert s[..|s| - 1] == "ok";
    assert TrimLeft(s) == s;
    assert s[..|s| - 1][..|s[..|s| - 1]| - 1] == "o";
    assert TrimRight(s) == TrimRight("ok");
  }
}
