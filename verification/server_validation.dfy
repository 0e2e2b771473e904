/** The server-side request validator (`ReviewRequest.validate_text` in
    backend/app.py): strip the text, apply the five rules in order, raise
    an HTTP 422 error carrying the first failing rule's message, and
    otherwise hand on the stripped text. */
module ServerValidation {
  import opened Text

  const UnprocessableEntity: int := 422

  const MinWords: nat := 10
  const MaxWords: nat := 256
  const MaxWordLength: nat := 30

  const EmptyDetail: string := "The review cannot be empty."
  const NoLetterDetail: string := "The review must contain at least one letter."
  const TooFewWordsDetail: string := "The review must contain at least 10 words."
  const TooManyWordsDetail: string := "The review must contain no more than 256 words."
  const WordTooLongDetail: string := "Each word in the review must not exceed 30 characters."

  /** A returned value, or a raised `HTTPException(status_code, detail)`. */
  datatype Response = Accepted(text: string) | Rejected(status: int, detail: string)

  /** The regex class `[a-zA-Zа-яА-ЯёЁ]`. */
  predicate IsLetter(c: char) {
    IsAsciiLetter(c) || IsCyrillicLetter(c)
  }

  /** `re.search(r'[a-zA-Zа-яА-ЯёЁ]', v)` finds a match. */
  predicate HasLetter(s: string) {
    exists i :: 0 <= i < |s| && IsLetter(s[i])
  }

  /** `any(len(word) > max_word_length for word in v.split())`. */
  predicate SomeWordTooLong(words: seq<string>) {
    exists k :: 0 <= k < |words| && |words[k]| > MaxWordLength
  }

  function ValidateText(v: string): (r: Response)
    ensures r.Rejected? ==> r.status == UnprocessableEntity
    ensures r.Rejected? ==> r.detail in {EmptyDetail, NoLetterDetail, TooFewWordsDetail,
                                         TooManyWordsDetail, WordTooLongDetail}
    ensures r.Accepted? ==> r.text == Trim(v) && r.text != []
  {
    var stripped := Trim(v);
    if stripped == [] then Rejected(UnprocessableEntity, EmptyDetail)
    else if !HasLetter(stripped) then Rejected(UnprocessableEntity, NoLetterDetail)
    else if |Words(stripped)| < MinWords then Rejected(UnprocessableEntity, TooFewWordsDetail)
    else if |Words(stripped)| > MaxWords then Rejected(UnprocessableEntity, TooManyWordsDetail)
    else if SomeWordTooLong(Words(stripped)) then Rejected(UnprocessableEntity, WordTooLongDetail)
    else Accepted(stripped)
  }

  lemma TrimKeepsLetters(v: string)
    ensures HasLetter(Trim(v)) <==> HasLetter(v)
  {
    var k := LeadingSpace(v);
    var r := Trim(v);
    if HasLetter(v) {
      var i :| 0 <= i < |v| && IsLetter(v[i]);
      assert k <= i < k + |r|;
      assert r[i - k] == v[i];
    }
    if HasLetter(r) {
      var j :| 0 <= j < |r| && IsLetter(r[j]);
      assert v[k + j] == r[j];
    }
  }

  /** The validator restated on the raw text: no stripping before the
      rules, only before handing the text on. */
  lemma ValidateOnRawText(v: string)
    ensures ValidateText(v) ==
      if AllWhitespace(v) then Rejected(UnprocessableEntity, EmptyDetail)
      else if !HasLetter(v) then Rejected(UnprocessableEntity, NoLetterDetail)
      else if |Words(v)| < MinWords then Rejected(UnprocessableEntity, TooFewWordsDetail)
      else if |Words(v)| > MaxWords then Rejected(UnprocessableEntity, TooManyWordsDetail)
      else if SomeWordTooLong(Words(v)) then Rejected(UnprocessableEntity, WordTooLongDetail)
      else Accepted(Trim(v))
  {
    TrimKeepsLetters(v);
    WordsOfTrim(v);
  }

  /** The request is accepted exactly when every rule passes on the raw
      text, and what is handed on is the stripped text. */
  lemma AcceptRule(v: string)
    ensures ValidateText(v).Accepted?
        <==> HasLetter(v) && MinWords <= |Words(v)| <= MaxWords && !SomeWordTooLong(Words(v))
    ensures ValidateText(v).Accepted? ==> ValidateText(v).text == Trim(v)
  {
    ValidateOnRawText(v);
    if HasLetter(v) {
      HasLetterNotBlank(v);
    }
  }

  lemma HasLetterNotBlank(v: string)
    requires HasLetter(v)
    ensures !AllWhitespace(v)
  {
    var i :| 0 <= i < |v| && IsLetter(v[i]);
    assert !IsWhitespace(v[i]);
  }

  /** Validating the validated text again accepts it unchanged. */
  lemma ValidateTextIdempotent(v: string)
    requires ValidateText(v).Accepted?
    ensures ValidateText(ValidateText(v).text) == ValidateText(v)
  {
    TrimIdempotent(v);
  }
}
