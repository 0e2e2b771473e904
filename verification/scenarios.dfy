/** The rule boundaries and precedences, and the request scenarios of
    tests/test_api.py, as facts about both validators. */
module Scenarios {
  import opened Text
  import C = ClientValidation
  import S = ServerValidation
  import Consistency

  /** A word of `n` letters `a`. */
  function Letters(n: nat): (w: string)
    ensures |w| == n && NoWhitespace(w)
    ensures n > 0 ==> C.HasAsciiLetter(w)
  {
    var w := seq(n, _ => 'a');
    assert n > 0 ==> IsAsciiLetter(w[0]);
    w
  }

  lemma RepeatIsProper(w: string, n: nat)
    requires w != [] && NoWhitespace(w)
    ensures ProperWords(Repeat(w, n))
  {
  }

  /** A joined text has an ASCII letter when its first word does. */
  lemma JoinHasAsciiLetter(ws: seq<string>)
    requires ws != [] && C.HasAsciiLetter(ws[0])
    ensures C.HasAsciiLetter(Join(ws))
  {
    JoinStartsWith(ws);
    var i :| 0 <= i < |ws[0]| && IsAsciiLetter(ws[0][i]);
    assert Join(ws)[i] == ws[0][i];
  }

  /** On a text of proper words joined by single spaces that has an ASCII
      letter anywhere, the client verdict is decided by the word count and
      the word lengths alone. */
  lemma JoinedVerdict(ws: seq<string>)
    requires ProperWords(ws) && C.HasAsciiLetter(Join(ws))
    ensures C.ValidateReview(Join(ws)) ==
      if |ws| < C.MinWords then C.Invalid(C.TooFewWordsMessage)
      else if |ws| > C.MaxWords then C.Invalid(C.TooManyWordsMessage)
      else if C.SomeWordTooLong(ws) then C.Invalid(C.WordTooLongMessage)
      else C.Valid
  {
    WordsOfJoin(ws);
    VerdictByWords(Join(ws), ws);
  }

  /** With a letter present, the verdict depends only on the words. */
  lemma VerdictByWords(t: string, ws: seq<string>)
    requires C.HasAsciiLetter(t) && Words(t) == ws
    ensures C.ValidateReview(t) ==
      if |ws| < C.MinWords then C.Invalid(C.TooFewWordsMessage)
      else if |ws| > C.MaxWords then C.Invalid(C.TooManyWordsMessage)
      else if C.SomeWordTooLong(ws) then C.Invalid(C.WordTooLongMessage)
      else C.Valid
  {
    if |ws| < C.MinWords {
      C.TooFewWordsRule(t);
    } else if |ws| > C.MaxWords {
      C.TooManyWordsRule(t);
    } else if C.SomeWordTooLong(ws) {
      C.WordTooLongRule(t);
    } else {
      C.AcceptRule(t);
    }
  }

  /** Repeating one short word: 9 and 257 copies are rejected, 10 and 256
      are accepted. */
  lemma WordCountBoundaries()
    ensures C.ValidateReview(Join(Repeat("word", 9))) == C.Invalid(C.TooFewWordsMessage)
    ensures C.ValidateReview(Join(Repeat("word", 10))) == C.Valid
    ensures C.ValidateReview(Join(Repeat("word", 256))) == C.Valid
    ensures C.ValidateReview(Join(Repeat("word", 257))) == C.Invalid(C.TooManyWordsMessage)
  {
    assert IsAsciiLetter("word"[0]);
    assert NoWhitespace("word");
    RepeatIsProper("word", 9);
    RepeatIsProper("word", 10);
    RepeatIsProper("word", 256);
    RepeatIsProper("word", 257);
    JoinHasAsciiLetter(Repeat("word", 9));
    JoinedVerdict(Repeat("word", 9));
    JoinHasAsciiLetter(Repeat("word", 10));
    JoinedVerdict(Repeat("word", 10));
    JoinHasAsciiLetter(Repeat("word", 256));
    JoinedVerdict(Repeat("word", 256));
    JoinHasAsciiLetter(Repeat("word", 257));
    JoinedVerdict(Repeat("word", 257));
  }

  /** Nine short words and a last word of `n` letters. */
  function NineWordsAnd(n: nat): (ws: seq<string>)
    ensures |ws| == 10
  {
    Repeat("word", 9) + [Letters(n)]
  }

  /** Ten words of which only the last may be long: accepted exactly when
      that word has at most 30 characters. */
  lemma NineWordsAndVerdict(n: nat)
    requires n > 0
    ensures C.ValidateReview(Join(NineWordsAnd(n))) ==
      if n <= C.MaxWordLength then C.Valid else C.Invalid(C.WordTooLongMessage)
  {
    var ws := NineWordsAnd(n);
    assert IsAsciiLetter("word"[0]);
    assert NoWhitespace("word");
    assert ws[0] == "word";
    assert forall k :: 0 <= k < 9 ==> ws[k] == "word";
    assert ws[9] == Letters(n);
    assert ProperWords(ws);
    assert C.SomeWordTooLong(ws) <==> n > C.MaxWordLength;
    JoinHasAsciiLetter(ws);
    JoinedVerdict(ws);
  }

  /** A word of exactly 30 characters passes; one of 31 is rejected. */
  lemma WordLengthBoundary()
    ensures C.ValidateReview(Join(NineWordsAnd(30))) == C.Valid
    ensures C.ValidateReview(Join(NineWordsAnd(31))) == C.Invalid(C.WordTooLongMessage)
  {
    NineWordsAndVerdict(30);
    NineWordsAndVerdict(31);
  }

  /** Rule 1 precedes rule 2: a blank text has no letter either, and is
      reported empty. Rule 4 precedes rule 6: five words one of which has
      40 characters are reported as too few words. */
  lemma Precedence()
    ensures C.ValidateReview("   ") == C.Invalid(C.EmptyMessage)
    ensures C.ValidateReview(Join(Repeat("word", 4) + [Letters(40)])) == C.Invalid(C.TooFewWordsMessage)
  {
    C.EmptyRule("   ");
    assert IsAsciiLetter("word"[0]);
    assert NoWhitespace("word");
    var ws := Repeat("word", 4) + [Letters(40)];
    assert ws[0] == "word";
    assert ProperWords(ws);
    JoinHasAsciiLetter(ws);
    JoinedVerdict(ws);
  }

  // ---------------------------------------------------------------------
  // tests/test_api.py, posted to the server

  /** On a text of proper words joined by single spaces that has an ASCII
      letter anywhere, the server answers what the client decides, and it
      accepts the text unchanged, since the text is already stripped. */
  lemma JoinedResponse(ws: seq<string>)
    requires ProperWords(ws) && C.HasAsciiLetter(Join(ws))
    ensures Trim(Join(ws)) == Join(ws)
    ensures S.ValidateText(Join(ws)) == Consistency.AsResponse(C.ValidateReview(Join(ws)), Join(ws))
  {
    Consistency.AgreeUnlessOnlyNonAsciiLetters(Join(ws));
    TrimOfJoin(ws);
  }

  /** "Bad movie" has too few words. */
  lemma TooFewWordsRequest()
    ensures S.ValidateText("Bad movie") == S.Rejected(422, S.TooFewWordsDetail)
  {
    var ws := ["Bad", "movie"];
    assert Join(ws) == "Bad movie";
    assert IsAsciiLetter("Bad"[0]);
    assert ProperWords(ws);
    JoinHasAsciiLetter(ws);
    JoinedVerdict(ws);
    JoinedResponse(ws);
  }

  /** `" ".join(["Word"] * 300)` has too many words. */
  lemma TooManyWordsRequest()
    ensures S.ValidateText(Join(Repeat("Word", 300))) == S.Rejected(422, S.TooManyWordsDetail)
  {
    var ws := Repeat("Word", 300);
    assert IsAsciiLetter("Word"[0]);
    assert NoWhitespace("Word");
    RepeatIsProper("Word", 300);
    JoinHasAsciiLetter(ws);
    JoinedVerdict(ws);
    JoinedResponse(ws);
  }

  /** The empty text and a text of five spaces are empty. */
  lemma EmptyRequests()
    ensures S.ValidateText("") == S.Rejected(422, S.EmptyDetail)
    ensures S.ValidateText("     ") == S.Rejected(422, S.EmptyDetail)
  {
    assert AllWhitespace("     ");
  }

  /** A non-blank text without any letter fails the server's letter rule. */
  lemma NoLetterResponse(t: string)
    requires !AllWhitespace(t) && !S.HasLetter(t)
    ensures S.ValidateText(t) == S.Rejected(422, S.NoLetterDetail)
  {
    S.TrimKeepsLetters(t);
  }

  lemma NoLetterAppend(a: string, b: string)
    requires !S.HasLetter(a) && !S.HasLetter(b)
    ensures !S.HasLetter(a + b)
  {
  }

  const DigitsAndSymbols: string := "123 456 789 000 !@# $%^ &*( )"

  /** The digit half of the test text has no letter. */
  lemma DigitsHaveNoLetter()
    ensures !S.HasLetter("123 456") && !S.HasLetter(" 789 000")
  {
  }

  /** Nor has its punctuation half. */
  lemma SymbolsHaveNoLetter()
    ensures !S.HasLetter(" !@# $%^") && !S.HasLetter(" &*( )")
  {
  }

  lemma DigitsAndSymbolsHaveNoLetter()
    ensures !AllWhitespace(DigitsAndSymbols) && !S.HasLetter(DigitsAndSymbols)
  {
    var a, b, c, d := "123 456", " 789 000", " !@# $%^", " &*( )";
    assert DigitsAndSymbols == a + b + c + d;
    DigitsHaveNoLetter();
    SymbolsHaveNoLetter();
    NoLetterAppend(a, b);
    NoLetterAppend(a + b, c);
    NoLetterAppend(a + b + c, d);
    assert !IsWhitespace(DigitsAndSymbols[0]);
  }

  /** Digits and punctuation only: no letter. */
  lemma NoLetterRequest()
    ensures S.ValidateText(DigitsAndSymbols) == S.Rejected(422, S.NoLetterDetail)
  {
    DigitsAndSymbolsHaveNoLetter();
    NoLetterResponse(DigitsAndSymbols);
  }

  /** The words of the over-long-word test sentence, which `Join` spells
      out with single spaces. */
  const LongWordSentence: seq<string> :=
    ["This", "is", "a", "normal", "sentence", "with", "a",
     "verylongwordthatexceedsthemaximumlength", "in", "it."]

  /** Ten words, the eighth of 39 characters: rejected for word length. */
  lemma WordTooLongRequest()
    ensures S.ValidateText(Join(LongWordSentence)) == S.Rejected(422, S.WordTooLongDetail)
  {
    LongWordSentenceWords();
    JoinHasAsciiLetter(LongWordSentence);
    JoinedVerdict(LongWordSentence);
    JoinedResponse(LongWordSentence);
  }

  lemma ShortWordsProper()
    ensures forall k | k in {0, 1, 2, 3, 4, 5, 6, 8, 9} ::
      LongWordSentence[k] != [] && NoWhitespace(LongWordSentence[k])
  {
  }

  lemma LongWordProper()
    ensures NoWhitespace(LongWordSentence[7])
  {
  }

  lemma LongWordSentenceWords()
    ensures ProperWords(LongWordSentence) && C.HasAsciiLetter(LongWordSentence[0])
    ensures |LongWordSentence| == 10 && C.SomeWordTooLong(LongWordSentence)
  {
    var ws := LongWordSentence;
    assert IsAsciiLetter(ws[0][0]);
    ShortWordsProper();
    LongWordProper();
    assert |ws[7]| == 39;
  }

  /** The words of the valid test review, which `Join` spells out with
      single spaces. */
  const ValidReview: seq<string> :=
    ["This", "is", "an", "amazing", "movie,", "I", "really", "enjoyed", "it!",
     "It", "had", "great", "performances", "and", "a", "compelling", "storyline."]

  /** Seventeen words of at most 12 characters: both validators accept it,
      and the server hands it on unchanged. */
  lemma ValidRequest()
    ensures C.ValidateReview(Join(ValidReview)) == C.Valid
    ensures S.ValidateText(Join(ValidReview)) == S.Accepted(Join(ValidReview))
  {
    ValidReviewWords();
    JoinHasAsciiLetter(ValidReview);
    JoinedVerdict(ValidReview);
    JoinedResponse(ValidReview);
  }

  lemma ValidReviewWords()
    ensures ProperWords(ValidReview) && C.HasAsciiLetter(ValidReview[0])
    ensures |ValidReview| == 17 && !C.SomeWordTooLong(ValidReview)
  {
    var ws := ValidReview;
    assert IsAsciiLetter(ws[0][0]);
    FirstReviewWordsProper();
    LastReviewWordsProper();
    assert forall k | 0 <= k < |ws| :: ws[k] != [] && NoWhitespace(ws[k]) && |ws[k]| <= 12;
  }

  lemma FirstReviewWordsProper()
    ensures forall k | k in {0, 1, 2, 3, 4, 5, 6, 7, 8} ::
      ValidReview[k] != [] && NoWhitespace(ValidReview[k]) && |ValidReview[k]| <= 12
  {
  }

  lemma LastReviewWordsProper()
    ensures forall k | k in {9, 10, 11, 12, 13, 14, 15, 16} ::
      ValidReview[k] != [] && NoWhitespace(ValidReview[k]) && |ValidReview[k]| <= 12
  {
  }

  /** Joining words none of which has an ASCII letter gives a text with
      none. */
  lemma JoinNoAsciiLetter(ws: seq<string>)
    requires forall k :: 0 <= k < |ws| ==> !C.HasAsciiLetter(ws[k])
    ensures !C.HasAsciiLetter(Join(ws))
  {
    forall i | 0 <= i < |Join(ws)| ensures !IsAsciiLetter(Join(ws)[i]) {
      JoinCharacters(ws, i);
    }
  }

  /** A review of proper words none of which has an ASCII letter (so any
      letters it has are Cyrillic): the browser finds no letter. */
  lemma CyrillicOnlyClient(ws: seq<string>)
    requires ProperWords(ws) && ws != []
    requires forall k :: 0 <= k < |ws| ==> !C.HasAsciiLetter(ws[k])
    ensures C.ValidateReview(Join(ws)) == C.Invalid(C.NoLetterMessage)
  {
    JoinNoAsciiLetter(ws);
    JoinIsTrimmed(ws);
    C.NoLetterRule(Join(ws));
  }

  /** ... while the server accepts such a review when it has a letter
      anywhere, 10 to 256 words and none over 30 characters. */
  lemma CyrillicOnlyServer(ws: seq<string>)
    requires ProperWords(ws) && C.MinWords <= |ws| <= C.MaxWords && !S.SomeWordTooLong(ws)
    requires S.HasLetter(Join(ws))
    ensures S.ValidateText(Join(ws)) == S.Accepted(Join(ws))
  {
    WordsOfJoin(ws);
    TrimOfJoin(ws);
    S.AcceptRule(Join(ws));
  }

  /** A joined text has a letter when its first word does. */
  lemma JoinHasLetter(ws: seq<string>)
    requires ws != [] && S.HasLetter(ws[0])
    ensures S.HasLetter(Join(ws))
  {
    JoinStartsWith(ws);
    var i :| 0 <= i < |ws[0]| && S.IsLetter(ws[0][i]);
    assert Join(ws)[i] == ws[0][i];
  }

  /** A joined text needs no stripping. */
  lemma TrimOfJoin(ws: seq<string>)
    requires ProperWords(ws)
    ensures Trim(Join(ws)) == Join(ws)
  {
    JoinIsTrimmed(ws);
    assert [] + Join(ws) + [] == Join(ws);
    TrimOfPadded([], Join(ws), []);
  }

  /** Ten copies of the Cyrillic word "фильм". */
  lemma CyrillicReview()
    ensures C.ValidateReview(Join(Repeat("фильм", 10))) == C.Invalid(C.NoLetterMessage)
    ensures S.ValidateText(Join(Repeat("фильм", 10))) == S.Accepted(Join(Repeat("фильм", 10)))
  {
    var w := "фильм";
    assert NoWhitespace(w) && S.IsLetter(w[0]) && !C.HasAsciiLetter(w);
    RepeatIsProper(w, 10);
    CyrillicOnlyClient(Repeat(w, 10));
    JoinHasLetter(Repeat(w, 10));
    CyrillicOnlyServer(Repeat(w, 10));
  }
}
