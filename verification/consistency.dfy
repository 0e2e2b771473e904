/** How the browser's verdict relates to the server's: the server applies
    the same rules in the same order with the same messages, and differs
    only in also counting Cyrillic letters as letters. */
module Consistency {
  import opened Text
  import C = ClientValidation
  import S = ServerValidation

  /** The server response that corresponds to a client verdict. */
  function AsResponse(v: C.Verdict, text: string): S.Response {
    match v
    case Valid => S.Accepted(Trim(text))
    case Invalid(m) => S.Rejected(S.UnprocessableEntity, m)
  }

  lemma AsciiLetterIsLetter(text: string)
    requires C.HasAsciiLetter(text)
    ensures S.HasLetter(text)
  {
    var i :| 0 <= i < |text| && IsAsciiLetter(text[i]);
    assert S.IsLetter(text[i]);
  }

  /** Both sides count the same words and judge the same lengths. The
      second clause mirrors the two validators' separate 30-character limits,
      `MAX_WORD_LENGTH` in the browser and `max_word_length` on the server,
      which are equal. */
  lemma SameWordRules(text: string)
    requires !AllWhitespace(text)
    ensures SplitOnWhitespaceRuns(Trim(text)) == Words(Trim(text))
    ensures C.SomeWordTooLong(Words(Trim(text))) == S.SomeWordTooLong(Words(Trim(text)))
  {
    C.ClientWords(text);
    WordsOfTrim(text);
  }

  /** On a blank text or one with an ASCII letter the two validators agree
      exactly: the same acceptance, and the same message with status 422 on
      every rejection. */
  lemma AgreeUnlessOnlyNonAsciiLetters(text: string)
    requires AllWhitespace(text) || C.HasAsciiLetter(text)
    ensures S.ValidateText(text) == AsResponse(C.ValidateReview(text), text)
  {
    C.VerdictOnRawText(text);
    S.ValidateOnRawText(text);
    if C.HasAsciiLetter(text) {
      AsciiLetterIsLetter(text);
    }
  }

  /** Whatever the browser lets through, the server accepts too, and it
      hands on the trimmed text. */
  lemma ClientAcceptsImpliesServerAccepts(text: string)
    requires C.ValidateReview(text) == C.Valid
    ensures S.ValidateText(text) == S.Accepted(Trim(text))
  {
    C.AcceptRule(text);
    AgreeUnlessOnlyNonAsciiLetters(text);
  }

  /** The one place the validators part: a non-blank text without ASCII
      letters but with a Cyrillic one fails the letter rule in the browser
      and passes it on the server. */
  lemma CyrillicOnlyDiverges(text: string)
    requires !AllWhitespace(text) && !C.HasAsciiLetter(text) && S.HasLetter(text)
    ensures C.ValidateReview(text) == C.Invalid(C.NoLetterMessage)
    ensures S.ValidateText(text) != S.Rejected(S.UnprocessableEntity, S.NoLetterDetail)
  {
    C.NoLetterRule(text);
    S.TrimKeepsLetters(text);
    S.AcceptRule(text);
    C.MessagesDistinct();
  }

  /** Conversely, whenever the two disagree, the browser reported the
      letter rule and the text holds no ASCII letter. */
  lemma DisagreementIsTheLetterRule(text: string)
    requires S.ValidateText(text) != AsResponse(C.ValidateReview(text), text)
    ensures C.ValidateReview(text) == C.Invalid(C.NoLetterMessage)
    ensures !C.HasAsciiLetter(text)
  {
    if AllWhitespace(text) || C.HasAsciiLetter(text) {
      AgreeUnlessOnlyNonAsciiLetters(text);
    } else {
      C.NoLetterRule(text);
    }
  }
}
