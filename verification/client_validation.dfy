/** The browser-side review validator (`validateReview` in
    frontend/src/utils.ts): five rules applied to the trimmed text in a
    fixed order, the first failing rule deciding the message. */
module ClientValidation {
  import opened Text

  const MinWords: nat := 10
  const MaxWords: nat := 256
  const MaxWordLength: nat := 30

  const EmptyMessage: string := "The review cannot be empty."
  const NoLetterMessage: string := "The review must contain at least one letter."
  const TooFewWordsMessage: string := "The review must contain at least 10 words."
  const TooManyWordsMessage: string := "The review must contain no more than 256 words."
  const WordTooLongMessage: string := "Each word in the review must not exceed 30 characters."

  /** `null` is `Valid`; a returned message is `Invalid(message)`. */
  datatype Verdict = Valid | Invalid(message: string)

  predicate IsRejectionMessage(m: string) {
    m == EmptyMessage || m == NoLetterMessage || m == TooFewWordsMessage
    || m == TooManyWordsMessage || m == WordTooLongMessage
  }

  /** The regex test `/[a-zA-Z]/`. */
  predicate HasAsciiLetter(s: string) {
    exists i :: 0 <= i < |s| && IsAsciiLetter(s[i])
  }

  /** `words.some(word => word.length > MAX_WORD_LENGTH)`. */
  predicate SomeWordTooLong(words: seq<string>) {
    exists k :: 0 <= k < |words| && |words[k]| > MaxWordLength
  }

  function ValidateReview(text: string): (v: Verdict)
    ensures v.Invalid? ==> IsRejectionMessage(v.message) && v.message != []
  {
    var trimmed := Trim(text);
    if trimmed == [] then Invalid(EmptyMessage)
    else if !HasAsciiLetter(trimmed) then Invalid(NoLetterMessage)
    else
      var words := SplitOnWhitespaceRuns(trimmed);
      if |words| < MinWords then Invalid(TooFewWordsMessage)
      else if |words| > MaxWords then Invalid(TooManyWordsMessage)
      else if SomeWordTooLong(words) then Invalid(WordTooLongMessage)
      else Valid
  }

  // ---------------------------------------------------------------------
  // The rules restated on the raw text, without trimming and with
  // Python-style splitting: each verdict holds exactly when its rule is
  // the first to fail.

  /** Letters are never whitespace, so trimming keeps every letter. */
  lemma TrimKeepsAsciiLetters(text: string)
    ensures HasAsciiLetter(Trim(text)) <==> HasAsciiLetter(text)
  {
    var k := LeadingSpace(text);
    var r := Trim(text);
    if HasAsciiLetter(text) {
      var i :| 0 <= i < |text| && IsAsciiLetter(text[i]);
      assert k <= i < k + |r|;
      assert r[i - k] == text[i];
    }
    if HasAsciiLetter(r) {
      var j :| 0 <= j < |r| && IsAsciiLetter(r[j]);
      assert text[k + j] == r[j];
    }
  }

  /** The words the client counts are Python's words of the raw text. */
  lemma ClientWords(text: string)
    requires !AllWhitespace(text)
    ensures SplitOnWhitespaceRuns(Trim(text)) == Words(text)
  {
    SplitAgreesOnTrimmed(Trim(text));
    WordsOfTrim(text);
  }

  lemma HasAsciiLetterNotBlank(text: string)
    requires HasAsciiLetter(text)
    ensures !AllWhitespace(text)
  {
    var i :| 0 <= i < |text| && IsAsciiLetter(text[i]);
    assert !IsWhitespace(text[i]);
  }

  /** The five messages are pairwise different. */
  lemma MessagesDistinct()
    ensures EmptyMessage != NoLetterMessage && EmptyMessage != TooFewWordsMessage
    ensures EmptyMessage != TooManyWordsMessage && EmptyMessage != WordTooLongMessage
    ensures NoLetterMessage != TooFewWordsMessage && NoLetterMessage != TooManyWordsMessage
    ensures NoLetterMessage != WordTooLongMessage
    ensures TooFewWordsMessage != TooManyWordsMessage && TooFewWordsMessage != WordTooLongMessage
    ensures TooManyWordsMessage != WordTooLongMessage
  {
    assert |EmptyMessage| == 27 && |NoLetterMessage| == 44 && |TooFewWordsMessage| == 42;
    assert |TooManyWordsMessage| == 47 && |WordTooLongMessage| == 54;
  }

  /** The validator restated on the raw text: no trimming, and Python-style
      words in place of the JavaScript split. */
  lemma VerdictOnRawText(text: string)
    ensures ValidateReview(text) ==
      if AllWhitespace(text) then Invalid(EmptyMessage)
      else if !HasAsciiLetter(text) then Invalid(NoLetterMessage)
      else if |Words(text)| < MinWords then Invalid(TooFewWordsMessage)
      else if |Words(text)| > MaxWords then Invalid(TooManyWordsMessage)
      else if SomeWordTooLong(Words(text)) then Invalid(WordTooLongMessage)
      else Valid
  {
    TrimKeepsAsciiLetters(text);
    if HasAsciiLetter(text) {
      HasAsciiLetterNotBlank(text);
      ClientWords(text);
    }
  }

  /** Rule 1 comes first: a blank text is reported empty, whatever else
      holds of it, and only a blank text is. */
  lemma EmptyRule(text: string)
    ensures ValidateReview(text) == Invalid(EmptyMessage) <==> AllWhitespace(text)
  {
    MessagesDistinct();
  }

  /** Rule 2: a non-blank text without an ASCII letter, and only such a
      text, is reported as letterless. */
  lemma NoLetterRule(text: string)
    ensures ValidateReview(text) == Invalid(NoLetterMessage)
        <==> !AllWhitespace(text) && !HasAsciiLetter(text)
  {
    MessagesDistinct();
    TrimKeepsAsciiLetters(text);
  }

  /** Rule 4: with a letter present, fewer than 10 words is reported as
      such, even when some word is also too long. */
  lemma TooFewWordsRule(text: string)
    ensures ValidateReview(text) == Invalid(TooFewWordsMessage)
        <==> HasAsciiLetter(text) && |Words(text)| < MinWords
  {
    MessagesDistinct();
    VerdictOnRawText(text);
  }

  /** Rule 5: more than 256 words, with a letter present. */
  lemma TooManyWordsRule(text: string)
    ensures ValidateReview(text) == Invalid(TooManyWordsMessage)
        <==> HasAsciiLetter(text) && |Words(text)| > MaxWords
  {
    MessagesDistinct();
    VerdictOnRawText(text);
  }

  /** Rule 6 comes after both count rules: an overlong word is reported
      only when the word count is within bounds. */
  lemma WordTooLongRule(text: string)
    ensures ValidateReview(text) == Invalid(WordTooLongMessage)
        <==> HasAsciiLetter(text) && MinWords <= |Words(text)| <= MaxWords
             && SomeWordTooLong(Words(text))
  {
    MessagesDistinct();
    VerdictOnRawText(text);
  }

  /** `null` exactly when all five rules pass. */
  lemma AcceptRule(text: string)
    ensures ValidateReview(text) == Valid
        <==> HasAsciiLetter(text) && MinWords <= |Words(text)| <= MaxWords
             && !SomeWordTooLong(Words(text))
  {
    VerdictOnRawText(text);
  }

  /** The verdict depends on the trimmed text only. */
  lemma DependsOnlyOnTrim(text: string)
    ensures ValidateReview(Trim(text)) == ValidateReview(text)
  {
    TrimIdempotent(text);
  }
}
