# Film review validation, modelled in Dafny

The film review service checks every review twice. The browser checks it with
`validateReview` before the review form submits. The server checks it again
with `ReviewRequest.validate_text` before the sentiment model sees it. Both
apply the same five rules, in the same order, to the trimmed text. The
first rule that fails decides the message:

1. empty after trimming;
2. no letter;
3. fewer than 10 words;
4. more than 256 words;
5. some word longer than 30 characters.

The rules as written differ in one place. The browser counts only ASCII letters,
while the server also counts the Cyrillic letters `а-я`, `А-Я`, `ё` and `Ё`.

The review form keeps the typed review and the last validation error. On
submit, it either records the error and clears the previous response, or
clears the error and hands the review, untrimmed, to its parent.

Files:

- `text.dfy` (module `Text`) covers whitespace and letter classes, and
  trimming. It has two splits: `Words` models Python `str.split()`, and
  `SplitOnWhitespaceRuns` models JavaScript `split(/\s+/)`. It also has
  `Join` (`" ".join`), and the lemmas relating these.
- `client_validation.dfy` (module `ClientValidation`) covers `validateReview`
  and one lemma per rule. Each lemma states exactly when that rule's message
  comes back, in terms of the raw text.
- `server_validation.dfy` (module `ServerValidation`) covers `validate_text`.
  A raised `HTTPException` becomes `Rejected(422, detail)`, and a returned
  value becomes `Accepted(text)`.
- `consistency.dfy` (module `Consistency`) covers how the two verdicts
  relate:
  - whatever the browser accepts, the server accepts;
  - on any text that is blank or has an ASCII letter, the two agree exactly;
  - they disagree only on non-blank text whose letters are all non-ASCII.

  All three hold for the whitespace set that JavaScript and Python share,
  which is the only whitespace set the model has. The second and third also
  rely on the model's one measure of word length, in characters. See
  "## Left out" for the inputs on which the validators as written differ.
- `scenarios.dfy` (module `Scenarios`) covers the boundaries and the
  precedences of the rules, and the request scenarios of the API tests.
- `review_form.dfy` (module `ReviewForm`) covers the form component. It
  has the shown-error and submit-disabled expressions as functions, and a
  class `Form` whose methods are the edit, submit and button-press steps.

## Model

| member | source | states |
|---|---|---|
| Text.IsWhitespace | frontend/src/utils.ts:16 | no contract of its own: the characters that are whitespace for both JavaScript's `\s` and Python's `str.split` (see "## Left out" for the ones that differ) |
| Text.Trim | frontend/src/utils.ts:6 | the result has no whitespace at either end; it is the slice of the input that starts right after the leading whitespace and is followed only by whitespace; it is empty exactly when the input is all whitespace |
| Text.TrimOfPadded | backend/app.py:57 | stripping any whitespace padding from around an already-stripped text gives that text back |
| Text.TrimIdempotent | backend/app.py:57 | stripping twice is the same as stripping once |
| Text.Words | backend/app.py:66 | Python's `split()` yields only non-empty, whitespace-free words |
| Text.WordsEmptyIff | backend/app.py:66 | `split()` yields no word exactly when the text is all whitespace |
| Text.WordsKeepVisible | backend/app.py:74 | the words, concatenated, are exactly the non-whitespace characters of the text, in order |
| Text.WordsOfTrim | backend/app.py:57-74 | splitting the stripped text gives the same words as splitting the raw text |
| Text.SplitOnWhitespaceRuns | frontend/src/utils.ts:16 | `split(/\s+/)` yields at least one piece, and no piece contains whitespace |
| Text.SplitAgreesOnTrimmed | frontend/src/utils.ts:16 | on a trimmed non-empty text, `split(/\s+/)` yields the same pieces as Python's `split()`, so they are all non-empty |
| Text.WordsOfJoin | tests/test_api.py:33 | `split()` undoes `" ".join` of non-empty, whitespace-free words |
| Text.SplitOnRunsOfJoin | frontend/src/utils.ts:16 | `split(/\s+/)` also undoes `" ".join` of a non-empty list of such words |
| Text.Join | tests/test_api.py:33 | no contract of its own: `WordsOfJoin`, `SplitOnRunsOfJoin` and `JoinIsTrimmed` state what `" ".join` of proper words is |
| Text.JoinIsTrimmed | tests/test_api.py:33 | joining proper words gives a text with no whitespace at either end, empty only for the empty list, starting with the first word's first character |
| Text.Repeat | tests/test_api.py:33 | `[w] * n` has length `n` and every element is `w` |
| ClientValidation.HasAsciiLetter | frontend/src/utils.ts:12 | no contract of its own: the regex test `/[a-zA-Z]/`, used by `NoLetterRule` and `TrimKeepsAsciiLetters` |
| ClientValidation.SomeWordTooLong | frontend/src/utils.ts:26 | no contract of its own: `words.some(word => word.length > 30)`, used by `WordTooLongRule` |
| ClientValidation.ValidateReview | frontend/src/utils.ts:5-31 | every rejection carries one of the five fixed, non-empty messages |
| ClientValidation.MessagesDistinct | frontend/src/utils.ts:9-27 | the five messages are pairwise different, so a message identifies its rule |
| ClientValidation.TrimKeepsAsciiLetters | frontend/src/utils.ts:12 | the trimmed text has an ASCII letter exactly when the raw text has one |
| ClientValidation.ClientWords | frontend/src/utils.ts:16 | on a non-blank text, the pieces of the trimmed text are Python's words of the raw text |
| ClientValidation.VerdictOnRawText | frontend/src/utils.ts:6-30 | the verdict is the five-rule chain, evaluated on the raw text with Python-style words |
| ClientValidation.EmptyRule | frontend/src/utils.ts:6-10 | the empty message comes back exactly for blank text, whatever else holds of it |
| ClientValidation.NoLetterRule | frontend/src/utils.ts:12-14 | the letter message comes back exactly for non-blank text without an ASCII letter |
| ClientValidation.TooFewWordsRule | frontend/src/utils.ts:16-20 | the min-words message comes back exactly when a letter is present and there are fewer than 10 words, even if some word is also too long |
| ClientValidation.TooManyWordsRule | frontend/src/utils.ts:22-24 | the max-words message comes back exactly when a letter is present and there are more than 256 words |
| ClientValidation.WordTooLongRule | frontend/src/utils.ts:26-28 | the word-length message comes back exactly when a letter is present, the count is within 10..256 and some word exceeds 30 characters |
| ClientValidation.AcceptRule | frontend/src/utils.ts:5-31 | `null` comes back exactly when all five rules pass |
| ClientValidation.DependsOnlyOnTrim | frontend/src/utils.ts:6 | validating the trimmed text gives the same verdict as validating the raw text |
| ServerValidation.HasLetter | backend/app.py:62 | no contract of its own: `re.search(r'[a-zA-Zа-яА-ЯёЁ]', v)` finds a match; `Consistency.AsciiLetterIsLetter` relates it to the browser's test |
| ServerValidation.SomeWordTooLong | backend/app.py:74 | no contract of its own: `any(len(word) > 30 for word in v.split())`, used by `AcceptRule` |
| ServerValidation.ValidateText | backend/app.py:55-77 | every rejection has status 422 and one of the five details; an accepted text is the non-empty stripped input |
| ServerValidation.TrimKeepsLetters | backend/app.py:57-62 | the stripped text has a letter (ASCII or Cyrillic) exactly when the raw text has one |
| ServerValidation.ValidateOnRawText | backend/app.py:57-77 | the response is the five-rule chain evaluated on the raw text, and acceptance hands on the stripped text |
| ServerValidation.AcceptRule | backend/app.py:57-77 | the request is accepted exactly when it has a letter, 10 to 256 words and no word over 30 characters; what is handed on is the stripped text |
| ServerValidation.ValidateTextIdempotent | backend/app.py:57-77 | validating an accepted text again accepts it with the same value |
| Consistency.AsciiLetterIsLetter | backend/app.py:62 | every text with an ASCII letter passes the server's wider letter test |
| Consistency.SameWordRules | backend/app.py:66-74 | both sides count the same words and find the same overlong words |
| Consistency.AgreeUnlessOnlyNonAsciiLetters | backend/app.py:57-75 | on blank text or text with an ASCII letter, the server's response is the browser's verdict: the same acceptance, or the same message with status 422 (over the shared whitespace set, with word length in characters) |
| Consistency.ClientAcceptsImpliesServerAccepts | backend/app.py:57-77 | whatever the browser accepts, the server accepts, and hands on the stripped text (over the shared whitespace set) |
| Consistency.CyrillicOnlyDiverges | backend/app.py:62 | non-blank text with a Cyrillic letter and no ASCII one fails the browser's letter rule but not the server's |
| Consistency.DisagreementIsTheLetterRule | backend/app.py:57-75 | whenever the two disagree, the browser reported the letter rule and the text has no ASCII letter (over the shared whitespace set, with word length in characters) |
| Scenarios.VerdictByWords | frontend/src/utils.ts:18-30 | once a letter is present, the verdict is decided by the word count and the word lengths in rule order |
| Scenarios.JoinedVerdict | frontend/src/utils.ts:16-30 | for proper words joined by single spaces, with an ASCII letter anywhere in the text, the verdict is decided by the word count and the word lengths in rule order |
| Scenarios.WordCountBoundaries | frontend/src/utils.ts:18-24 | 9 and 257 words are rejected for count; 10 and 256 words are accepted |
| Scenarios.NineWordsAndVerdict | frontend/src/utils.ts:26-28 | ten words, the last of `n` letters, are accepted exactly when `n <= 30`, and otherwise rejected for word length |
| Scenarios.WordLengthBoundary | frontend/src/utils.ts:26-28 | a 30-character word passes and a 31-character word is rejected |
| Scenarios.Precedence | frontend/src/utils.ts:8-20 | blank text is reported empty, not letterless; five words, one of them 40 characters long, are reported as too few words, not as too long |
| Scenarios.JoinedResponse | backend/app.py:57-77 | for proper words joined by single spaces, with an ASCII letter anywhere in the text, the server answers what the browser decides, and the text needs no stripping (with word length in characters) |
| Scenarios.TooFewWordsRequest | tests/test_api.py:22-29 | "Bad movie" is rejected with 422 and the min-words detail |
| Scenarios.TooManyWordsRequest | tests/test_api.py:32-39 | 300 copies of "Word" joined by spaces are rejected with 422 and the max-words detail |
| Scenarios.EmptyRequests | tests/test_api.py:42-59 | "" and five spaces are rejected with 422 and the empty detail |
| Scenarios.DigitsAndSymbolsHaveNoLetter | tests/test_api.py:63 | the digits-and-symbols text is non-blank and has no letter |
| Scenarios.NoLetterRequest | tests/test_api.py:62-69 | the digits-and-symbols text is rejected with 422 and the letter detail |
| Scenarios.WordTooLongRequest | tests/test_api.py:72-79 | the ten-word sentence with a 39-character word is rejected with 422 and the word-length detail |
| Scenarios.ValidRequest | tests/test_api.py:7-12 | the 17-word valid review is accepted by the browser, and by the server unchanged |
| Scenarios.CyrillicOnlyClient | frontend/src/utils.ts:12-14 | a non-empty list of proper words, none with an ASCII letter, joined by single spaces gets the browser's letter message |
| Scenarios.CyrillicOnlyServer | backend/app.py:62 | proper words joined by single spaces, with a letter (ASCII or Cyrillic) anywhere, 10 to 256 of them and none over 30 characters, are accepted by the server unchanged |
| Scenarios.CyrillicReview | backend/app.py:62 | ten copies of "фильм" are rejected by the browser and accepted by the server |
| ReviewForm.ShownError | frontend/src/components/ReviewForm.tsx:42-43 | something is shown exactly when one of the two errors is truthy; the validation error wins; what is shown is one of the two, non-empty |
| ReviewForm.SubmitDisabled | frontend/src/components/ReviewForm.tsx:48 | the button is disabled exactly when loading or the review is all whitespace |
| ReviewForm.Form.constructor | frontend/src/components/ReviewForm.tsx:12-13 | a mounted form has an empty review, no error and no calls to its parent |
| ReviewForm.Form.Edit | frontend/src/components/ReviewForm.tsx:15-17 | while loading, an edit changes nothing (the text area is disabled, line 40); otherwise the review takes the new text, and a changed value clears the error so that only the parent's error can be shown; no parent call is made |
| ReviewForm.Form.HandleSubmit | frontend/src/components/ReviewForm.tsx:19-29 | an invalid review records its message and appends exactly one `clearResponse()`; a valid one clears the error and appends exactly one `onSubmit(review)` with the review as typed; after a rejection the form shows that message whatever the parent's error, after an acceptance only the parent's error; the review is unchanged and every submitted review is valid |
| ReviewForm.Form.PressSubmit | frontend/src/components/ReviewForm.tsx:45-49 | a disabled button changes nothing; an enabled one behaves as `handleSubmit` |
| ReviewForm.EnabledSubmitIsNotEmpty | frontend/src/components/ReviewForm.tsx:48 | with the button enabled, the form is not loading and the submit never reports an empty review |
| ReviewForm.SubmissionsPassServer | frontend/src/components/ReviewForm.tsx:27-28 | every review the form hands to `onSubmit` is accepted by the server's validator, which hands on its stripped text (over the shared whitespace set) |

## Left out

- The sentiment model in backend/app.py is not modelled: the DistilBERT network, weight and tokenizer loading, the `/predict` route's softmax, threshold and rating. These are foreign numeric code and floating point.
- Also not modelled: the CORS setup, environment lookups, the `/health` route and the server start-up in backend/app.py. These are configuration and I/O.
- main.py, frontend/src/App.tsx, ResultDisplay.tsx, Header.tsx, types.ts and the styling configuration are not part of this model. None of them validates anything.
- The parent's `onSubmit` and `clearResponse` are not executed. The form records each call in `Form.calls`, and `loading` and `error` are parameters. The `await` on `onSubmit` and `event.preventDefault()` are not modelled.
- Text.IsWhitespace: one set stands for both JavaScript's `\s`/`trim` and Python's `split`/`strip`, namely the characters both treat as whitespace (U+0009..U+000D, space, U+00A0, U+1680, U+2000..U+200A, U+2028, U+2029, U+202F, U+205F, U+3000). U+FEFF is whitespace for JavaScript only, and U+001C..U+001F and U+0085 for Python only; the model does not capture those characters.
- Consistency.ClientAcceptsImpliesServerAccepts, Consistency.AgreeUnlessOnlyNonAsciiLetters, Consistency.DisagreementIsTheLetterRule and ReviewForm.SubmissionsPassServer hold only under that one shared whitespace set. For the two validators as written they fail on the characters above. For example, 200 tokens `ab` U+001C `cd` joined by spaces are 200 words for the browser, which accepts them and passes them to `onSubmit`. The server sees 400 words and answers 422 with the max-words detail. Likewise, a 41-character word with U+FEFF in the middle is two short pieces for the browser but one overlong word for the server.
- Text.Words: word length is counted in characters. JavaScript counts UTF-16 code units and Python counts code points, so the two sides may differ on characters outside the Basic Multilingual Plane (the next line lists the members this affects).
- Consistency.AgreeUnlessOnlyNonAsciiLetters, Consistency.DisagreementIsTheLetterRule and Scenarios.JoinedResponse also hold only under the model's one measure of word length, in characters (code points). For the two validators as written they fail outside the Basic Multilingual Plane. For example, take the nine words `a` to `i` followed by one word of 16 × U+1F600. `word.length` is 32 UTF-16 units at frontend/src/utils.ts:26, so the browser answers with the word-length message. `len(word)` is 16 at backend/app.py:74, so the server accepts. Consistency.ClientAcceptsImpliesServerAccepts and ReviewForm.SubmissionsPassServer are not affected by length: a word's UTF-16 length is never less than its number of code points, so a word the browser lets through is never too long for the server.
- Scenarios.WordTooLongRequest: the test sentence is given as its list of ten words, joined with single spaces, rather than as one string literal. The two are the same text, but that equality is not stated in the model.
- Scenarios.ValidRequest: the valid-review API test (tests/test_api.py:7-19) is modelled only up to validation. The review is given as its list of words joined with single spaces, and the assertions about the sentiment, confidence and rating fields are not modelled, since they concern the sentiment model's output.
- ReviewForm.Form.Edit: React's `useEffect` is modelled as running right after the state update. The render cycle and batching are not modelled.
