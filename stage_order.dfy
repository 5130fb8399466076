/** Behaviours of normalize_text that follow from the order of its stages:
    URL removal comes after punctuation removal, stop words are removed
    before digits and punctuation, digits are removed character by
    character, and the Arabic semicolon is deleted where ASCII punctuation
    becomes a blank. */
module StageOrder {
  import opened PyStr
  import opened UrlRegex
  import opened App

  /** A token that every stage from lower_case to removing_punctuations
      leaves alone: no upper case, no digit, no punctuation, no whitespace. */
  predicate IsCleanToken(w: string)
  {
    w != [] && forall c :: c in w ==> IsWordChar(c) && !IsUpper(c) && !IsDigit(c)
  }

  lemma CleanTokenIsToken(w: string)
    requires IsCleanToken(w)
    ensures IsToken(w)
  {
    assert forall i :: 0 <= i < |w| ==> w[i] in w;
  }

  /** Filtering deletes a dropped element between two kept pieces. */
  lemma FilterDropsOne<T(!new)>(keep: T -> bool, a: seq<T>, x: T, b: seq<T>)
    requires Filter(keep, a) == a && Filter(keep, b) == b && !keep(x)
    ensures Filter(keep, a + [x] + b) == a + b
  {
    FilterConcat(keep, a + [x], b);
    FilterConcat(keep, a, [x]);
    assert Filter(keep, [x]) == [];
    assert a + [] == a;
  }

  lemma ReplaceAroundOne(a: string, x: char, b: string)
    requires forall c :: c in a + b ==> !IsPunctuation(c)
    ensures ReplacePunctuation(a + [x] + b) == a + [if IsPunctuation(x) then ' ' else x] + b
  {
    var t := a + [x] + b;
    var u := a + [if IsPunctuation(x) then ' ' else x] + b;
    forall i | 0 <= i < |t|
      ensures ReplacePunctuation(t)[i] == u[i]
    {
      if i < |a| {
        assert t[i] == a[i] == u[i] && a[i] in a + b;
      } else if i > |a| {
        assert t[i] == b[i - |a| - 1] == u[i] && b[i - |a| - 1] in a + b;
      }
    }
  }

  /** removing_punctuations keeps a clean token as it is. */
  lemma CleanTokenKeepsPunctuationStage(w: string)
    requires IsCleanToken(w)
    ensures RemovingPunctuations(w) == w
  {
    CleanTokenIsToken(w);
    TokenIsCanonical(w);
    RemovingPunctuationsUnchanged(w);
  }

  /** lower_case and remove_stop_words keep a token that has no upper case
      letter and is not a stop word. */
  lemma TokenSurvivesFirstStages(stopWords: set<string>, t: string)
    requires IsToken(t) && t !in stopWords
    requires forall c :: c in t ==> !IsUpper(c)
    ensures RemoveStopWords(stopWords, LowerCase(t)) == t
  {
    TokenIsCanonical(t);
    LowerCaseUnchanged(t);
    SplitOfToken(t);
    RemoveStopWordsUnchanged(stopWords, t);
  }

  /** A URL on its own is deleted by removing_urls when that stage sees it. */
  lemma UrlAloneIsRemoved(u: string)
    requires IsToken(u) && MatchesAt(u)
    ensures RemovingUrls(u) == ""
  {
    assert MatchLength(u) == |u|;
    assert u[|u|..] == [];
  }

  /** Inside normalize_text it never sees one: stages 4 and 5 together delete
      only punctuation and whitespace, so every word character of a URL
      ("http", "example", "com" of http://example.com) is still there, in
      order. */
  lemma UrlWordCharactersSurvive(text: string)
    ensures Filter(NotSpace, RemovingUrls(RemovingPunctuations(text))) == Filter(IsWordChar, text)
  {
    UrlStageIsIdentity(text);
    RemovingPunctuationsKeepsWordChars(text);
  }

  /** Digit removal joins the pieces around a digit into one. */
  lemma DigitRemovalJoinsPieces(a: string, b: string, d: char)
    requires IsDigit(d)
    requires forall c :: c in a ==> !IsDigit(c)
    requires forall c :: c in b ==> !IsDigit(c)
    ensures RemovingNumbers(a + [d] + b) == a + b
  {
    FilterKeepsAll(NotDigit, a);
    FilterKeepsAll(NotDigit, b);
    FilterDropsOne(NotDigit, a, d, b);
  }

  /** ASCII punctuation between two clean tokens becomes one blank. */
  lemma AsciiPunctuationSeparates(w: string, v: string, p: char)
    requires IsCleanToken(w) && IsCleanToken(v) && IsPunctuation(p)
    ensures RemovingPunctuations(w + [p] + v) == w + " " + v
  {
    ReplaceAroundOne(w, p, v);
    assert [if IsPunctuation(p) then ' ' else p] == " ";
    BlankBetweenCleanTokens(w, v);
  }

  lemma BlankBetweenCleanTokens(w: string, v: string)
    requires IsCleanToken(w) && IsCleanToken(v)
    ensures Join(Split(DeleteArabicSemicolon(w + " " + v))) == w + " " + v
  {
    var spaced := w + " " + v;
    assert forall c :: c in spaced ==> NotArabicSemicolon(c);
    FilterKeepsAll(NotArabicSemicolon, spaced);
    CleanTokenIsToken(w);
    CleanTokenIsToken(v);
    JoinTwoTokens(w, v);
  }

  lemma JoinTwoTokens(w: string, v: string)
    requires IsToken(w) && IsToken(v)
    ensures Join(Split(w + " " + v)) == w + " " + v
  {
    assert Join([w, v]) == w + " " + v;
    SplitJoin([w, v]);
  }

  /** The Arabic semicolon between two clean tokens is deleted, joining them. */
  lemma ArabicSemicolonJoinsPieces(w: string, v: string)
    requires IsCleanToken(w) && IsCleanToken(v)
    ensures RemovingPunctuations(w + [ArabicSemicolon] + v) == w + v
  {
    ReplaceAroundOne(w, ArabicSemicolon, v);
    FilterKeepsAll(NotArabicSemicolon, w);
    FilterKeepsAll(NotArabicSemicolon, v);
    FilterDropsOne(NotArabicSemicolon, w, ArabicSemicolon, v);
    JoinedCleanTokens(w, v);
  }

  lemma JoinedCleanTokens(w: string, v: string)
    requires IsCleanToken(w) && IsCleanToken(v)
    ensures Join(Split(w + v)) == w + v
  {
    assert IsCleanToken(w + v);
    CleanTokenIsToken(w + v);
    SplitOfToken(w + v);
  }

  /** Stop words are removed before digits: a stop word with a digit
      attached is not a stop word, and the digit is removed afterwards, so
      the stop word reaches lemmatization ("the1" becomes "the"). */
  lemma StopWordCanSurvive(stopWords: set<string>, w: string, d: char)
    requires IsCleanToken(w) && w in stopWords
    requires IsDigit(d) && w + [d] !in stopWords
    ensures LemmatizerInput(stopWords, w + [d]) == w
  {
    var t := w + [d];
    CleanTokenIsToken(w);
    assert IsToken(t);
    TokenSurvivesFirstStages(stopWords, t);
    DigitRemovalJoinsPieces(w, [], d);
    assert w + [d] + [] == t && w + [] == w;
    CleanTokenKeepsPunctuationStage(w);
  }

  /** Stop words are removed before punctuation: "don't" is not a stop word,
      but punctuation removal splits it, and its first half reaches
      lemmatization even when it is a stop word. */
  lemma PunctuationCanUncoverStopWord(stopWords: set<string>, w: string, p: char, v: string)
    requires IsCleanToken(w) && IsCleanToken(v) && IsPunctuation(p)
    requires w + [p] + v !in stopWords
    ensures LemmatizerInput(stopWords, w + [p] + v) == w + " " + v
  {
    var t := w + [p] + v;
    CleanTokenIsToken(w);
    CleanTokenIsToken(v);
    assert IsToken(t);
    TokenSurvivesFirstStages(stopWords, t);
    FilterKeepsAll(NotDigit, t);
    AsciiPunctuationSeparates(w, v, p);
  }

  /** A clean stop word on its own is removed entirely by stages 1 to 5. */
  lemma StopWordAloneVanishes(stopWords: set<string>, w: string)
    requires IsCleanToken(w) && w in stopWords
    ensures LemmatizerInput(stopWords, w) == ""
  {
    CleanTokenIsToken(w);
    TokenIsCanonical(w);
    LowerCaseUnchanged(w);
    SplitOfToken(w);
    assert KeptWords(stopWords, [w]) == [];
  }

  /** So stages 1 to 5 are not idempotent: a second pass removes the stop
      word that the first pass uncovered. */
  lemma CleaningIsNotIdempotent(stopWords: set<string>, w: string, d: char)
    requires IsCleanToken(w) && w in stopWords
    requires IsDigit(d) && w + [d] !in stopWords
    ensures LemmatizerInput(stopWords, w + [d]) == w
    ensures LemmatizerInput(stopWords, LemmatizerInput(stopWords, w + [d])) == ""
  {
    StopWordCanSurvive(stopWords, w, d);
    StopWordAloneVanishes(stopWords, w);
  }

  // Instances: "the1" and "don't" with the stop words "the" and "don",
  // "a1b", and a semicolon of either kind between "a" and "b".

  lemma StopWordWithDigitExample()
    ensures LemmatizerInput({"the"}, "the1") == "the"
  {
    assert IsCleanToken("the");
    assert "the" + ['1'] == "the1";
    StopWordCanSurvive({"the"}, "the", '1');
  }

  /** "don't" written as its three pieces. */
  lemma ApostropheExample()
    ensures LemmatizerInput({"don"}, "don" + ['\''] + "t") == "don" + " " + "t"
  {
    assert IsCleanToken("don") && IsCleanToken("t");
    assert |"don" + ['\''] + "t"| == 5;
    PunctuationCanUncoverStopWord({"don"}, "don", '\'', "t");
  }

  lemma DigitInsideWordExample()
    ensures RemovingNumbers("a1b") == "ab"
  {
    assert "a" + ['1'] + "b" == "a1b";
    DigitRemovalJoinsPieces("a", "b", '1');
  }

  lemma ArabicSemicolonExample()
    ensures RemovingPunctuations("a" + [ArabicSemicolon] + "b") == "a" + "b"
  {
    assert IsCleanToken("a") && IsCleanToken("b");
    ArabicSemicolonJoinsPieces("a", "b");
  }

  lemma AsciiSemicolonExample()
    ensures RemovingPunctuations("a" + [';'] + "b") == "a" + " " + "b"
  {
    assert IsCleanToken("a") && IsCleanToken("b");
    AsciiPunctuationSeparates("a", "b", ';');
  }

  lemma UrlExample()
    ensures MatchesAt("http://x")
    ensures RemovingUrls("http://x") == ""
  {
    assert "http://x"[..|Http|] == Http;
    UrlAloneIsRemoved("http://x");
  }

  /** Text before a URL in the same string is kept: "ab http://x" becomes
      "ab ". */
  lemma UrlAfterWordExample()
    ensures RemovingUrls("ab" + " " + "http://x") == "ab" + " "
  {
    RemovingUrlsAtSpace("ab", ' ', "http://x");
    assert FirstMatch("ab") == 2;
    RemovingUrlsWord("ab");
    UrlExample();
  }
}
