/** Character classes, trimming and word splitting shared by the client
    validator (JavaScript `trim` and `split(/\s+/)`) and the server
    validator (Python `str.strip` and `str.split()`). */
module Text {

  /** The characters that are whitespace for JavaScript's `\s` and `trim`
      and for Python's `str.split` and `str.strip` alike: tab, line feed,
      vertical tab, form feed, carriage return (U+0009..U+000D), space,
      U+00A0, U+1680, U+2000..U+200A, U+2028, U+2029, U+202F, U+205F and
      U+3000. */
  predicate IsWhitespace(c: char) {
    c == ' ' || ('\t' <= c <= '\r') || c == '\U{00A0}' || c == '\U{1680}'
    || ('\U{2000}' <= c <= '\U{200A}') || c == '\U{2028}' || c == '\U{2029}'
    || c == '\U{202F}' || c == '\U{205F}' || c == '\U{3000}'
  }

  /** The regex class `[a-zA-Z]`. */
  predicate IsAsciiLetter(c: char) {
    ('a' <= c <= 'z') || ('A' <= c <= 'Z')
  }

  /** The regex class `[а-яА-ЯёЁ]`: U+0430..U+044F, U+0410..U+042F, U+0451 and U+0401. */
  predicate IsCyrillicLetter(c: char) {
    ('\U{0430}' <= c <= '\U{044F}') || ('\U{0410}' <= c <= '\U{042F}') || c == '\U{0451}' || c == '\U{0401}'
  }

  predicate AllWhitespace(s: string) {
    forall i :: 0 <= i < |s| ==> IsWhitespace(s[i])
  }

  predicate NoWhitespace(s: string) {
    forall i :: 0 <= i < |s| ==> !IsWhitespace(s[i])
  }

  /** Neither end of `s` is whitespace. */
  predicate IsTrimmed(s: string) {
    s == [] || (!IsWhitespace(s[0]) && !IsWhitespace(s[|s| - 1]))
  }

  /** Length of the longest all-whitespace prefix of `s`. */
  function LeadingSpace(s: string): (n: nat)
    ensures n <= |s|
    ensures forall i :: 0 <= i < n ==> IsWhitespace(s[i])
    ensures n < |s| ==> !IsWhitespace(s[n])
  {
    if s != [] && IsWhitespace(s[0]) then 1 + LeadingSpace(s[1..]) else 0
  }

  /** Length of the longest whitespace-free prefix of `s`. */
  function WordLength(s: string): (n: nat)
    ensures n <= |s|
    ensures forall i :: 0 <= i < n ==> !IsWhitespace(s[i])
    ensures n < |s| ==> IsWhitespace(s[n])
  {
    if s != [] && !IsWhitespace(s[0]) then 1 + WordLength(s[1..]) else 0
  }

  /** `s` without its trailing whitespace. */
  function TrimEnd(s: string): (r: string)
    ensures |r| <= |s| && r == s[..|r|]
    ensures forall i :: |r| <= i < |s| ==> IsWhitespace(s[i])
    ensures r == [] || !IsWhitespace(r[|r| - 1])
  {
    if s != [] && IsWhitespace(s[|s| - 1]) then TrimEnd(s[..|s| - 1]) else s
  }

  /** JavaScript `String.prototype.trim` and Python `str.strip()`:
      the text between the leading and the trailing whitespace. */
  function Trim(s: string): (r: string)
    ensures IsTrimmed(r)
    ensures LeadingSpace(s) + |r| <= |s|
    ensures r == s[LeadingSpace(s)..LeadingSpace(s) + |r|]
    ensures forall i :: LeadingSpace(s) + |r| <= i < |s| ==> IsWhitespace(s[i])
    ensures r == [] <==> AllWhitespace(s)
  {
    var t := s[LeadingSpace(s)..];
    var r := TrimEnd(t);
    assert r != [] ==> r[0] == t[0];
    r
  }

  /** Python `str.split()` with no separator: the maximal whitespace-free
      runs of `s`, in order; leading and trailing whitespace produce no
      empty words. */
  function Words(s: string): (ws: seq<string>)
    ensures forall k :: 0 <= k < |ws| ==> ws[k] != [] && NoWhitespace(ws[k])
    decreases |s|
  {
    var t := s[LeadingSpace(s)..];
    if t == [] then []
    else
      var n := WordLength(t);
      [t[..n]] + Words(t[n..])
  }

  /** JavaScript `s.split(/\s+/)`: the pieces between maximal whitespace
      runs. Unlike `Words`, a leading or trailing run yields an empty piece,
      and the empty string splits into one empty piece. */
  function SplitOnWhitespaceRuns(s: string): (parts: seq<string>)
    ensures |parts| >= 1
    ensures forall k :: 0 <= k < |parts| ==> NoWhitespace(parts[k])
    decreases |s|
  {
    var n := WordLength(s);
    if n == |s| then [s]
    else
      var rest := s[n..];
      [s[..n]] + SplitOnWhitespaceRuns(rest[LeadingSpace(rest)..])
  }

  /** Python `" ".join(ws)`: the words separated by single spaces. */
  function Join(ws: seq<string>): string
    decreases |ws|
  {
    if |ws| == 0 then []
    else if |ws| == 1 then ws[0]
    else ws[0] + " " + Join(ws[1..])
  }

  /** The non-whitespace characters of `s`, in order. */
  function Visible(s: string): string
    decreases |s|
  {
    if s == [] then []
    else if IsWhitespace(s[0]) then Visible(s[1..])
    else [s[0]] + Visible(s[1..])
  }

  function Concat(ws: seq<string>): string
    decreases |ws|
  {
    if ws == [] then [] else ws[0] + Concat(ws[1..])
  }

  /** The list of `n` copies of `w` (Python `[w] * n`). */
  function Repeat(w: string, n: nat): (ws: seq<string>)
    ensures |ws| == n
    ensures forall k :: 0 <= k < n ==> ws[k] == w
  {
    if n == 0 then [] else [w] + Repeat(w, n - 1)
  }

  // ---------------------------------------------------------------------
  // Trimming

  /** Trimming removes exactly the surrounding whitespace: whatever padding
      surrounds a trimmed text, trimming gives that text back. */
  lemma {:induction false} TrimOfPadded(pre: string, m: string, post: string)
    requires AllWhitespace(pre) && AllWhitespace(post) && IsTrimmed(m)
    ensures Trim(pre + m + post) == m
  {
    var s := pre + m + post;
    if m == [] {
      assert AllWhitespace(s) by {
        forall i | 0 <= i < |s| ensures IsWhitespace(s[i]) {
          if i < |pre| { assert s[i] == pre[i]; } else { assert s[i] == post[i - |pre|]; }
        }
      }
    } else {
      assert s == pre + (m + post);
      LeadingSpaceOfPadded(pre, m + post);
      assert s[|pre|..] == m + post;
      TrimEndOfPadded(m, post);
    }
  }

  lemma {:induction false} TrimEndOfPadded(m: string, post: string)
    requires AllWhitespace(post) && (m == [] || !IsWhitespace(m[|m| - 1]))
    ensures TrimEnd(m + post) == m
    decreases |post|
  {
    if post == [] {
      assert m + post == m;
    } else {
      var u := m + post;
      assert u[|u| - 1] == post[|post| - 1];
      assert u[..|u| - 1] == m + post[..|post| - 1];
      TrimEndOfPadded(m, post[..|post| - 1]);
    }
  }

  lemma {:induction false} LeadingSpaceOfPadded(pre: string, rest: string)
    requires AllWhitespace(pre)
    requires rest == [] || !IsWhitespace(rest[0])
    ensures LeadingSpace(pre + rest) == |pre|
    decreases |pre|
  {
    if pre != [] {
      assert (pre + rest)[1..] == pre[1..] + rest;
      LeadingSpaceOfPadded(pre[1..], rest);
    }
  }

  /** Trimming is idempotent. */
  lemma TrimIdempotent(s: string)
    ensures Trim(Trim(s)) == Trim(s)
  {
    var m := Trim(s);
    assert m == [] + m + [];
    TrimOfPadded([], m, []);
  }

  // ---------------------------------------------------------------------
  // Splitting

  /** Leading whitespace does not change Python's split. */
  lemma WordsSkipsLeadingSpace(s: string)
    ensures Words(s) == Words(s[LeadingSpace(s)..])
  {
    var t := s[LeadingSpace(s)..];
    assert LeadingSpace(t) == 0;
    assert t[LeadingSpace(t)..] == t;
  }

  /** A text has no word exactly when it is all whitespace. */
  lemma WordsEmptyIff(s: string)
    ensures Words(s) == [] <==> AllWhitespace(s)
  {
    var t := s[LeadingSpace(s)..];
    if t == [] {
      assert AllWhitespace(s);
    } else {
      assert !IsWhitespace(s[LeadingSpace(s)]);
    }
  }

  /** On a trimmed non-empty text, JavaScript's `split(/\s+/)` and Python's
      `split()` produce the same words; so the JavaScript pieces there are
      never empty. */
  lemma {:induction false} SplitAgreesOnTrimmed(s: string)
    requires s != [] && IsTrimmed(s)
    ensures SplitOnWhitespaceRuns(s) == Words(s)
    decreases |s|
  {
    var n := WordLength(s);
    assert LeadingSpace(s) == 0;
    assert s[LeadingSpace(s)..] == s;
    if n < |s| {
      var rest := s[n..];
      var g := LeadingSpace(rest);
      var next := rest[g..];
      assert g >= 1;
      assert rest[|rest| - 1] == s[|s| - 1];
      assert next[|next| - 1] == s[|s| - 1];
      SplitAgreesOnTrimmed(next);
      WordsSkipsLeadingSpace(rest);
    } else {
      assert s[..n] == s;
      assert Words(s[n..]) == [];
    }
  }

  /** WordLength stops exactly at the end of a whitespace-free word that is
      followed by whitespace or by nothing. */
  lemma {:induction false} WordLengthOfWord(w: string, rest: string)
    requires NoWhitespace(w)
    requires rest == [] || IsWhitespace(rest[0])
    ensures WordLength(w + rest) == |w|
    decreases |w|
  {
    if w != [] {
      assert (w + rest)[1..] == w[1..] + rest;
      WordLengthOfWord(w[1..], rest);
    } else {
      assert w + rest == rest;
    }
  }

  predicate ProperWords(ws: seq<string>) {
    forall k :: 0 <= k < |ws| ==> ws[k] != [] && NoWhitespace(ws[k])
  }

  /** Joining proper words never starts or ends with whitespace, and is
      empty only for the empty list. */
  lemma {:induction false} JoinIsTrimmed(ws: seq<string>)
    requires ProperWords(ws)
    ensures IsTrimmed(Join(ws))
    ensures Join(ws) == [] <==> ws == []
    ensures ws != [] ==> Join(ws)[0] == ws[0][0]
    decreases |ws|
  {
    if |ws| >= 2 {
      JoinIsTrimmed(ws[1..]);
      var j := Join(ws[1..]);
      assert Join(ws) == ws[0] + (" " + j);
      assert Join(ws)[|Join(ws)| - 1] == j[|j| - 1];
    }
  }

  /** A whitespace-free word followed by whitespace (or by nothing) is
      the first word Python's split reports. */
  lemma WordsOfWordThen(w: string, rest: string)
    requires w != [] && NoWhitespace(w)
    requires rest == [] || IsWhitespace(rest[0])
    ensures Words(w + rest) == [w] + Words(rest)
  {
    var s := w + rest;
    assert LeadingSpace(s) == 0;
    assert s[0..] == s;
    WordLengthOfWord(w, rest);
    assert s[..|w|] == w;
    assert s[|w|..] == rest;
  }

  /** One separating space in front of a word does not change the words. */
  lemma WordsAfterSpace(j: string)
    requires j == [] || !IsWhitespace(j[0])
    ensures Words(" " + j) == Words(j)
  {
    LeadingSpaceOfPadded(" ", j);
    WordsSkipsLeadingSpace(" " + j);
    assert (" " + j)[1..] == j;
  }

  /** Round trip: Python's split undoes joining proper words with spaces. */
  lemma {:induction false} WordsOfJoin(ws: seq<string>)
    requires ProperWords(ws)
    ensures Words(Join(ws)) == ws
    decreases |ws|
  {
    if |ws| == 1 {
      WordsOfWordThen(ws[0], []);
      assert ws[0] + [] == ws[0];
    } else if |ws| >= 2 {
      WordsOfJoinStep(ws);
      WordsOfJoin(ws[1..]);
      assert ws == [ws[0]] + ws[1..];
    }
  }

  /** Splitting a join of two or more words splits off the first word. */
  lemma WordsOfJoinStep(ws: seq<string>)
    requires ProperWords(ws) && |ws| >= 2
    ensures ProperWords(ws[1..])
    ensures Words(Join(ws)) == [ws[0]] + Words(Join(ws[1..]))
  {
    var j := Join(ws[1..]);
    JoinIsTrimmed(ws[1..]);
    assert Join(ws) == ws[0] + (" " + j);
    WordsOfWordThen(ws[0], " " + j);
    WordsAfterSpace(j);
  }

  /** Round trip for the JavaScript split as well. */
  lemma SplitOnRunsOfJoin(ws: seq<string>)
    requires ProperWords(ws) && ws != []
    ensures SplitOnWhitespaceRuns(Join(ws)) == ws
  {
    JoinIsTrimmed(ws);
    SplitAgreesOnTrimmed(Join(ws));
    WordsOfJoin(ws);
  }

  lemma {:induction false} VisibleAppend(a: string, b: string)
    ensures Visible(a + b) == Visible(a) + Visible(b)
    decreases |a|
  {
    if a == [] {
      assert a + b == b;
    } else {
      assert (a + b)[1..] == a[1..] + b;
      VisibleAppend(a[1..], b);
    }
  }

  lemma {:induction false} VisibleOfSpace(s: string)
    requires AllWhitespace(s)
    ensures Visible(s) == []
    decreases |s|
  {
    if s != [] { VisibleOfSpace(s[1..]); }
  }

  lemma {:induction false} VisibleOfWord(s: string)
    requires NoWhitespace(s)
    ensures Visible(s) == s
    decreases |s|
  {
    if s != [] {
      VisibleOfWord(s[1..]);
      assert s == [s[0]] + s[1..];
    }
  }

  /** Splitting loses no character but whitespace: the words, put back
      together, are the visible characters of the text in order. */
  lemma {:induction false} WordsKeepVisible(s: string)
    ensures Concat(Words(s)) == Visible(s)
    decreases |s|
  {
    var t := s[LeadingSpace(s)..];
    VisibleSkipsLeadingSpace(s);
    if t != [] {
      var n := WordLength(t);
      VisibleOfWordThen(t);
      WordsKeepVisible(t[n..]);
      assert Words(s) == [t[..n]] + Words(t[n..]);
      assert Words(s)[1..] == Words(t[n..]);
    }
  }

  lemma VisibleSkipsLeadingSpace(s: string)
    ensures Visible(s) == Visible(s[LeadingSpace(s)..])
  {
    var k := LeadingSpace(s);
    assert s == s[..k] + s[k..];
    VisibleAppend(s[..k], s[k..]);
    VisibleOfSpace(s[..k]);
  }

  lemma VisibleOfWordThen(t: string)
    ensures Visible(t) == t[..WordLength(t)] + Visible(t[WordLength(t)..])
  {
    var n := WordLength(t);
    assert t == t[..n] + t[n..];
    VisibleAppend(t[..n], t[n..]);
    VisibleOfWord(t[..n]);
  }

  /** Trimming does not change Python's split. */
  lemma WordsOfTrim(s: string)
    ensures Words(Trim(s)) == Words(s)
  {
    var k := LeadingSpace(s);
    var t := s[k..];
    var r := Trim(s);
    var tail := t[|r|..];
    assert t == r + tail;
    assert AllWhitespace(tail);
    WordsSkipsLeadingSpace(s);
    WordsTrailingSpace(r, tail);
  }

  /** Trailing whitespace does not change Python's split. */
  lemma {:induction false} WordsTrailingSpace(s: string, post: string)
    requires AllWhitespace(post)
    ensures Words(s + post) == Words(s)
    decreases |s|
  {
    if AllWhitespace(s) {
      WordsOfBlank(s, post);
    } else {
      var pre, w, rest := FirstWord(s);
      AppendRegroup(pre, w, rest, post);
      SpaceThenSpace(rest, post);
      WordsOfPaddedWordThen(pre, w, rest);
      WordsOfPaddedWordThen(pre, w, rest + post);
      WordsTrailingSpace(rest, post);
    }
  }

  /** A text that is not blank is leading whitespace, a first word, and a
      rest that is empty or starts with whitespace. */
  lemma FirstWord(s: string) returns (pre: string, w: string, rest: string)
    requires !AllWhitespace(s)
    ensures s == pre + w + rest
    ensures AllWhitespace(pre) && w != [] && NoWhitespace(w)
    ensures rest == [] || IsWhitespace(rest[0])
  {
    var k := LeadingSpace(s);
    var t := s[k..];
    var n := WordLength(t);
    pre, w, rest := s[..k], t[..n], t[n..];
    assert s == pre + w + rest;
  }

  lemma WordsOfBlank(s: string, post: string)
    requires AllWhitespace(s) && AllWhitespace(post)
    ensures Words(s + post) == [] && Words(s) == []
  {
    assert AllWhitespace(s + post);
    WordsEmptyIff(s + post);
    WordsEmptyIff(s);
  }

  lemma AppendRegroup(a: string, b: string, c: string, d: string)
    ensures a + b + c + d == a + b + (c + d)
  {
  }

  lemma SpaceThenSpace(rest: string, post: string)
    requires rest == [] || IsWhitespace(rest[0])
    requires AllWhitespace(post)
    ensures rest + post == [] || IsWhitespace((rest + post)[0])
  {
    if rest != [] {
      assert (rest + post)[0] == rest[0];
    } else if post != [] {
      assert (rest + post)[0] == post[0];
    }
  }

  /** Leading whitespace is skipped and the first word is taken whole. */
  lemma WordsOfPaddedWordThen(pre: string, w: string, rest: string)
    requires AllWhitespace(pre) && w != [] && NoWhitespace(w)
    requires rest == [] || IsWhitespace(rest[0])
    ensures Words(pre + w + rest) == [w] + Words(rest)
  {
    var u := pre + w + rest;
    assert u == pre + (w + rest);
    LeadingSpaceOfPadded(pre, w + rest);
    WordsSkipsLeadingSpace(u);
    assert u[|pre|..] == w + rest;
    WordsOfWordThen(w, rest);
  }

  /** A joined text starts with its first word. */
  lemma {:induction false} JoinStartsWith(ws: seq<string>)
    requires ws != []
    ensures |ws[0]| <= |Join(ws)| && Join(ws)[..|ws[0]|] == ws[0]
  {
    if |ws| >= 2 {
      assert Join(ws) == ws[0] + (" " + Join(ws[1..]));
    }
  }

  /** Every character of a joined text is a space or a character of one
      of the words. */
  lemma {:induction false} JoinCharacters(ws: seq<string>, i: nat)
    requires i < |Join(ws)|
    ensures Join(ws)[i] == ' ' || exists k, j :: 0 <= k < |ws| && 0 <= j < |ws[k]| && Join(ws)[i] == ws[k][j]
    decreases |ws|
  {
    if |ws| == 1 {
      assert Join(ws)[i] == ws[0][i];
    } else {
      var rest := Join(ws[1..]);
      assert Join(ws) == ws[0] + " " + rest;
      if i < |ws[0]| {
        assert Join(ws)[i] == ws[0][i];
      } else if i > |ws[0]| {
        var i' := i - |ws[0]| - 1;
        assert Join(ws)[i] == rest[i'];
        JoinCharacters(ws[1..], i');
        if rest[i'] != ' ' {
          var k, j :| 0 <= k < |ws[1..]| && 0 <= j < |ws[1..][k]| && rest[i'] == ws[1..][k][j];
          assert ws[1..][k] == ws[k + 1];
        }
      }
    }
  }
}
