/** The text-normalisation stages of the sentiment service
    (fastapi_app/app.py) and normalize_text, which chains them.

    The two library collaborators are parameters: the NLTK English stop-word
    list is a set of strings, and WordNetLemmatizer().lemmatize is a function
    from token to token. */
module App {
  import opened PyStr
  import opened UrlRegex

  // ---------------------------------------------------------------------
  // lemmatization
  // ---------------------------------------------------------------------

  /** [f(word) for word in toks] */
  function MapTokens(f: string -> string, toks: seq<string>): seq<string>
  {
    seq(|toks|, k requires 0 <= k < |toks| => f(toks[k]))
  }

  /** The lemmatizer turns every token into one token: non-empty and free of
      whitespace.  Only the lemmas about token counts rely on this. */
  ghost predicate KeepsTokens(lemmatize: string -> string)
  {
    forall t :: IsToken(t) ==> IsToken(lemmatize(t))
  }

  /** lemmatization: every whitespace token is replaced by its lemma and the
      lemmas are joined with single blanks. */
  function Lemmatization(lemmatize: string -> string, text: string): (r: string)
    ensures Split(text) == [] ==> r == ""
  {
    Join(MapTokens(lemmatize, Split(text)))
  }

  /** Lemmatization is token for token: the k-th token of the result is the
      lemma of the k-th token of the input, and the result is single-spaced. */
  lemma LemmatizationMapsTokens(lemmatize: string -> string, text: string)
    requires KeepsTokens(lemmatize)
    ensures var r := Lemmatization(lemmatize, text);
      && |Split(r)| == |Split(text)|
      && (forall k :: 0 <= k < |Split(text)| ==> Split(r)[k] == lemmatize(Split(text)[k]))
      && Canonical(r)
  {
    var toks := MapTokens(lemmatize, Split(text));
    assert AllTokens(toks);
    SplitJoin(toks);
    JoinCanonical(toks);
  }

  // ---------------------------------------------------------------------
  // remove_stop_words
  // ---------------------------------------------------------------------

  /** [word for word in toks if word not in stop_words] */
  function KeptWords(stopWords: set<string>, toks: seq<string>): (kept: seq<string>)
    ensures forall t :: t in kept <==> t in toks && t !in stopWords
    ensures |kept| <= |toks|
  {
    Filter(t => t !in stopWords, toks)
  }

  /** remove_stop_words: the whitespace tokens that are not stop words,
      joined with single blanks. */
  function RemoveStopWords(stopWords: set<string>, text: string): (r: string)
    ensures Canonical(r)
    ensures forall c :: c in r ==> c == ' ' || c in text
  {
    var toks := Split(text);
    var kept := KeptWords(stopWords, toks);
    assert forall k :: 0 <= k < |kept| ==> kept[k] in toks;
    JoinCanonical(kept);
    JoinCharsAll(kept);
    Join(kept)
  }

  /** The tokens of the result are exactly the input tokens that are not
      stop words, each as often as in the input and in the input's order;
      so no result token is a stop word and the count never grows.  With no
      stop words the text is only re-spaced. */
  lemma RemoveStopWordsTokens(stopWords: set<string>, text: string)
    ensures var r := Split(RemoveStopWords(stopWords, text));
      && r == KeptWords(stopWords, Split(text))
      && (forall t :: t in r <==> t in Split(text) && t !in stopWords)
      && (forall t :: t !in stopWords ==> multiset(r)[t] == multiset(Split(text))[t])
      && IsSubsequence(r, Split(text))
      && |r| <= |Split(text)|
    ensures stopWords == {} ==> RemoveStopWords(stopWords, text) == Join(Split(text))
  {
    var toks := Split(text);
    var kept := KeptWords(stopWords, toks);
    assert forall k :: 0 <= k < |kept| ==> kept[k] in toks;
    SplitJoin(kept);
    FilterCounts(t => t !in stopWords, toks);
    FilterIsSubsequence(t => t !in stopWords, toks);
    FilterUnchanged(t => t !in stopWords, toks);
  }

  /** remove_stop_words leaves its input alone exactly when the input is
      single-spaced and none of its tokens is a stop word. */
  lemma RemoveStopWordsUnchanged(stopWords: set<string>, text: string)
    ensures RemoveStopWords(stopWords, text) == text <==>
      Canonical(text) && forall t :: t in Split(text) ==> t !in stopWords
  {
    RemoveStopWordsTokens(stopWords, text);
    if Canonical(text) && forall t :: t in Split(text) ==> t !in stopWords {
      FilterUnchanged(t => t !in stopWords, Split(text));
      CanonicalJoinSplit(text);
    }
  }

  /** Removing stop words twice removes nothing more. */
  lemma RemoveStopWordsIdempotent(stopWords: set<string>, text: string)
    ensures RemoveStopWords(stopWords, RemoveStopWords(stopWords, text)) == RemoveStopWords(stopWords, text)
  {
    RemoveStopWordsTokens(stopWords, text);
    RemoveStopWordsUnchanged(stopWords, RemoveStopWords(stopWords, text));
  }

  // ---------------------------------------------------------------------
  // removing_numbers
  // ---------------------------------------------------------------------

  predicate NotDigit(c: char)
  {
    !IsDigit(c)
  }

  /** removing_numbers: every digit character is deleted, every other
      character is kept in its place in the order.  Together the first three
      clauses determine the result: a subsequence of the input holding every
      non-digit occurrence and nothing else. */
  function RemovingNumbers(text: string): (r: string)
    ensures forall c :: c in r <==> c in text && !IsDigit(c)
    ensures forall c :: !IsDigit(c) ==> multiset(r)[c] == multiset(text)[c]
    ensures IsSubsequence(r, text)
    ensures |r| <= |text|
    ensures r == text <==> forall c :: c in text ==> !IsDigit(c)
  {
    FilterCounts(NotDigit, text);
    FilterIsSubsequence(NotDigit, text);
    FilterUnchanged(NotDigit, text);
    Filter(NotDigit, text)
  }

  /** Digit removal works character by character: it commutes with
      concatenation, so it never looks at token boundaries. */
  lemma RemovingNumbersConcat(a: string, b: string)
    ensures RemovingNumbers(a + b) == RemovingNumbers(a) + RemovingNumbers(b)
  {
    FilterConcat(NotDigit, a, b);
  }

  // ---------------------------------------------------------------------
  // removing_punctuations
  // ---------------------------------------------------------------------

  /** Python's string.punctuation. */
  const Punctuation: string := "!\"#$%&'()*+,-./:;<=>?@[\\]^_`{|}~"

  /** The Arabic semicolon U+061B, deleted outright by removing_punctuations. */
  const ArabicSemicolon: char := '\U{061B}'

  /** The ASCII punctuation characters, as four code-point ranges. */
  predicate IsPunctuation(c: char)
  {
    ('!' <= c <= '/') || (':' <= c <= '@') || ('[' <= c <= '`') || ('{' <= c <= '~')
  }

  /** The ranges are exactly Python's string.punctuation. */
  lemma PunctuationIsPythons(c: char)
    ensures IsPunctuation(c) <==> c in Punctuation
  {
    if IsPunctuation(c) {
      var i: int := if c <= '/' then c as int - '!' as int
        else if c <= '@' then c as int - ':' as int + 15
        else if c <= '`' then c as int - '[' as int + 22
        else c as int - '{' as int + 28;
      assert Punctuation[i] == c;
    } else {
      PythonsPunctuationInRanges();
    }
  }

  lemma PythonsPunctuationInRanges()
    ensures forall i :: 0 <= i < |Punctuation| ==> IsPunctuation(Punctuation[i])
  {
  }

  predicate NotArabicSemicolon(c: char)
  {
    c != ArabicSemicolon
  }

  /** re.sub('[' + re.escape(string.punctuation) + ']', ' ', text): every
      punctuation character becomes a blank, in place. */
  function ReplacePunctuation(text: string): (r: string)
    ensures |r| == |text|
    ensures forall i :: 0 <= i < |text| ==> r[i] == if IsPunctuation(text[i]) then ' ' else text[i]
    ensures forall c :: c in r ==> c == ' ' || (c in text && !IsPunctuation(c))
  {
    if text == [] then []
    else [if IsPunctuation(text[0]) then ' ' else text[0]] + ReplacePunctuation(text[1..])
  }

  /** text.replace('؛', "") */
  function DeleteArabicSemicolon(text: string): (r: string)
    ensures forall c :: c in r <==> c in text && c != ArabicSemicolon
  {
    Filter(NotArabicSemicolon, text)
  }

  /** Every other character keeps its count and its order. */
  lemma DeleteArabicSemicolonKeepsOthers(text: string)
    ensures var r := DeleteArabicSemicolon(text);
      && (forall c :: c != ArabicSemicolon ==> multiset(r)[c] == multiset(text)[c])
      && IsSubsequence(r, text)
  {
    FilterCounts(NotArabicSemicolon, text);
    FilterIsSubsequence(NotArabicSemicolon, text);
  }

  /** removing_punctuations: ASCII punctuation becomes a blank, the Arabic
      semicolon disappears, whitespace runs become one blank and the ends
      are stripped.  The result is " ".join of the tokens of the text after
      the two substitutions, so it is single-spaced and holds neither kind
      of punctuation. */
  function RemovingPunctuations(text: string): (r: string)
    ensures forall c :: c in r ==> !IsPunctuation(c) && c != ArabicSemicolon
    ensures forall c :: c in r ==> c == ' ' || c in text
    ensures Canonical(r)
    ensures r == Join(Split(DeleteArabicSemicolon(ReplacePunctuation(text))))
  {
    var deleted := DeleteArabicSemicolon(ReplacePunctuation(text));
    StripCollapseIsJoinSplit(deleted);
    SubstitutedChars(text);
    Strip(CollapseWhitespace(deleted))
  }

  lemma SubstitutedChars(text: string)
    ensures forall c :: c in Join(Split(DeleteArabicSemicolon(ReplacePunctuation(text)))) ==>
      c == ' ' || (c in text && !IsPunctuation(c) && c != ArabicSemicolon)
  {
    var spaced := ReplacePunctuation(text);
    var deleted := DeleteArabicSemicolon(spaced);
    JoinSplitChars(deleted);
    assert forall c :: c in deleted ==> c in spaced && c != ArabicSemicolon;
  }

  /** A character that survives removing_punctuations as part of a word. */
  predicate IsWordChar(c: char)
  {
    !IsSpace(c) && !IsPunctuation(c) && c != ArabicSemicolon
  }

  lemma {:induction false} VisibleAfterSubstitutions(text: string)
    ensures Filter(NotSpace, DeleteArabicSemicolon(ReplacePunctuation(text))) == Filter(IsWordChar, text)
    decreases |text|
  {
    if text != [] {
      var c := text[0];
      var d := if IsPunctuation(c) then ' ' else c;
      var rest := ReplacePunctuation(text[1..]);
      assert ReplacePunctuation(text) == [d] + rest;
      FilterConcat(NotArabicSemicolon, [d], rest);
      FilterConcat(NotSpace, Filter(NotArabicSemicolon, [d]), DeleteArabicSemicolon(rest));
      VisibleAfterSubstitutions(text[1..]);
      assert text == [c] + text[1..];
      FilterConcat(IsWordChar, [c], text[1..]);
      VisibleOneChar(c);
    }
  }

  lemma VisibleOneChar(c: char)
    ensures var d := if IsPunctuation(c) then ' ' else c;
      Filter(NotSpace, Filter(NotArabicSemicolon, [d])) == Filter(IsWordChar, [c])
  {
    assert [c][1..] == [];
    var d := if IsPunctuation(c) then ' ' else c;
    assert [d][1..] == [];
  }

  /** Every word character of the input survives, in order, and nothing else
      but blanks does. */
  lemma RemovingPunctuationsKeepsWordChars(text: string)
    ensures Filter(NotSpace, RemovingPunctuations(text)) == Filter(IsWordChar, text)
  {
    VisibleJoinSplit(DeleteArabicSemicolon(ReplacePunctuation(text)));
    VisibleAfterSubstitutions(text);
  }

  /** removing_punctuations leaves its input alone exactly when the input is
      single-spaced and holds no punctuation of either kind. */
  lemma RemovingPunctuationsUnchanged(text: string)
    ensures RemovingPunctuations(text) == text <==>
      Canonical(text) && forall c :: c in text ==> !IsPunctuation(c) && c != ArabicSemicolon
  {
    if Canonical(text) && forall c :: c in text ==> !IsPunctuation(c) && c != ArabicSemicolon {
      assert ReplacePunctuation(text) == text;
      FilterUnchanged(NotArabicSemicolon, text);
      CanonicalJoinSplit(text);
    }
  }

  lemma RemovingPunctuationsIdempotent(text: string)
    ensures RemovingPunctuations(RemovingPunctuations(text)) == RemovingPunctuations(text)
  {
    RemovingPunctuationsUnchanged(RemovingPunctuations(text));
  }

  // ---------------------------------------------------------------------
  // removing_urls
  // ---------------------------------------------------------------------

  /** removing_urls: re.sub scans left to right; at the leftmost position
      where https?://\S+ or www\.\S+ matches it deletes the match (up to the
      next whitespace) and resumes after it. */
  function RemovingUrls(text: string): (r: string)
    ensures |r| <= |text|
    ensures forall c :: c in r ==> c in text
    decreases |text|
  {
    if text == [] then []
    else if MatchesAt(text) then
      assert forall c :: c in text[MatchLength(text)..] ==> c in text;
      RemovingUrls(text[MatchLength(text)..])
    else
      assert forall c :: c in text[1..] ==> c in text;
      [text[0]] + RemovingUrls(text[1..])
  }

  /** The leading word of the result is a prefix of the input. */
  lemma {:induction false} RemovingUrlsLeadingWord(text: string)
    ensures var r := RemovingUrls(text);
      WordLength(r) <= |text| && r[..WordLength(r)] == text[..WordLength(r)]
    decreases |text|
  {
    if text != [] {
      if MatchesAt(text) {
        RemovingUrlsAfterMatch(text);
      } else {
        RemovingUrlsLeadingWord(text[1..]);
        assert RemovingUrls(text) == [text[0]] + RemovingUrls(text[1..]);
        LeadingWordCons(text[0], RemovingUrls(text[1..]), text[1..]);
        assert [text[0]] + text[1..] == text;
      }
    }
  }

  /** Right after a match the result starts with whitespace, or is empty. */
  lemma RemovingUrlsAfterMatch(text: string)
    requires MatchesAt(text)
    ensures WordLength(RemovingUrls(text)) == 0
  {
    var rest := text[MatchLength(text)..];
    assert RemovingUrls(text) == RemovingUrls(rest);
    if rest != [] {
      assert IsSpace(rest[0]);
      assert !MatchesAt(rest) by {
        assert Http[0] == 'h' && Https[0] == 'h' && Www[0] == 'w';
      }
      assert RemovingUrls(rest) == [rest[0]] + RemovingUrls(rest[1..]);
    }
  }

  /** Putting the same character in front of x and y keeps x's leading word
      a prefix of y. */
  lemma LeadingWordCons(c: char, x: string, y: string)
    requires WordLength(x) <= |y| && x[..WordLength(x)] == y[..WordLength(x)]
    ensures var r := [c] + x;
      WordLength(r) <= |[c] + y| && r[..WordLength(r)] == ([c] + y)[..WordLength(r)]
  {
    var r := [c] + x;
    assert r[1..] == x;
    if !IsSpace(c) {
      var w := WordLength(x);
      assert WordLength(r) == 1 + w;
      assert r[..1 + w] == [c] + x[..w];
      assert ([c] + y)[..1 + w] == [c] + y[..w];
    }
  }

  /** No match is left in the result: re.sub removed every URL. */
  lemma {:induction false} RemovingUrlsLeavesNoMatch(text: string)
    ensures NoMatch(RemovingUrls(text))
    decreases |text|
  {
    if text != [] {
      if MatchesAt(text) {
        RemovingUrlsLeavesNoMatch(text[MatchLength(text)..]);
      } else {
        var r, rest := RemovingUrls(text), RemovingUrls(text[1..]);
        RemovingUrlsLeavesNoMatch(text[1..]);
        assert r == [text[0]] + rest;
        forall i | 0 <= i <= |r|
          ensures !MatchesAt(r[i..])
        {
          if i == 0 {
            RemovingUrlsLeadingWord(text);
            if MatchesAt(r) {
              MatchDependsOnWord(r, text);
            }
          } else {
            assert r[i..] == rest[i - 1..];
          }
        }
      }
    }
  }

  /** What survives keeps its order: the result is a subsequence of the input. */
  lemma {:induction false} RemovingUrlsIsSubsequence(text: string)
    ensures IsSubsequence(RemovingUrls(text), text)
    decreases |text|
  {
    if text != [] {
      if MatchesAt(text) {
        RemovingUrlsIsSubsequence(text[MatchLength(text)..]);
        SubsequenceOfSuffix(RemovingUrls(text), text, MatchLength(text));
      } else {
        RemovingUrlsIsSubsequence(text[1..]);
        var r := RemovingUrls(text);
        assert r[0] == text[0] && r[1..] == RemovingUrls(text[1..]);
      }
    }
  }

  /** A match never spans whitespace, so every whitespace character of the
      input is still there, in order. */
  lemma {:induction false} RemovingUrlsKeepsWhitespace(text: string)
    ensures Filter(IsSpace, RemovingUrls(text)) == Filter(IsSpace, text)
    decreases |text|
  {
    if text != [] {
      if MatchesAt(text) {
        var n := MatchLength(text);
        RemovingUrlsKeepsWhitespace(text[n..]);
        MatchHasNoWhitespace(text);
      } else {
        RemovingUrlsKeepsWhitespace(text[1..]);
        var r := RemovingUrls(text);
        assert r == [text[0]] + RemovingUrls(text[1..]);
        assert text == [text[0]] + text[1..];
        FilterConcat(IsSpace, [text[0]], RemovingUrls(text[1..]));
        FilterConcat(IsSpace, [text[0]], text[1..]);
      }
    }
  }

  lemma MatchHasNoWhitespace(text: string)
    ensures var n := MatchLength(text);
      Filter(IsSpace, text) == Filter(IsSpace, text[n..])
  {
    var n := MatchLength(text);
    var w := text[..n];
    assert forall i :: 0 <= i < |w| ==> w[i] == text[i];
    FilterNone(IsSpace, w);
    assert text == w + text[n..];
    FilterConcat(IsSpace, w, text[n..]);
  }

  /** removing_urls changes its input exactly when the pattern matches somewhere. */
  lemma {:induction false} RemovingUrlsUnchanged(text: string)
    ensures RemovingUrls(text) == text <==> NoMatch(text)
    decreases |text|
  {
    RemovingUrlsLeavesNoMatch(text);
    if text != [] && NoMatch(text) {
      assert !MatchesAt(text[0..]) && text[0..] == text;
      assert NoMatch(text[1..]) by {
        forall i | 0 <= i <= |text[1..]|
          ensures !MatchesAt(text[1..][i..])
        {
          assert text[1..][i..] == text[i + 1..];
        }
      }
      RemovingUrlsUnchanged(text[1..]);
    }
  }

  lemma RemovingUrlsIdempotent(text: string)
    ensures RemovingUrls(RemovingUrls(text)) == RemovingUrls(text)
  {
    RemovingUrlsLeavesNoMatch(text);
    RemovingUrlsUnchanged(RemovingUrls(text));
  }

  /** Matches never cross whitespace, so the stage works on the pieces on
      either side of a whitespace character separately and keeps that
      character. */
  lemma {:induction false} RemovingUrlsAtSpace(a: string, c: char, b: string)
    requires IsSpace(c)
    ensures RemovingUrls(a + [c] + b) == RemovingUrls(a) + [c] + RemovingUrls(b)
    decreases |a|
  {
    var s := a + [c] + b;
    if a == [] {
      assert s == [c] + b && s[1..] == b;
      NoMatchAtSpace(s);
    } else if MatchesAt(a) {
      var n := MatchLength(a);
      MatchBeforeSpace(a, [c] + b);
      assert s == a + ([c] + b);
      assert s[n..] == a[n..] + [c] + b;
      RemovingUrlsAtSpace(a[n..], c, b);
      assert RemovingUrls(s) == RemovingUrls(s[n..]);
      assert RemovingUrls(a) == RemovingUrls(a[n..]);
    } else {
      MatchBeforeSpace(a, [c] + b);
      assert s == a + ([c] + b);
      assert s[0] == a[0] && s[1..] == a[1..] + [c] + b;
      RemovingUrlsAtSpace(a[1..], c, b);
      var x, y := RemovingUrls(a[1..]), RemovingUrls(b);
      assert RemovingUrls(s) == [a[0]] + (x + [c] + y);
      assert RemovingUrls(a) == [a[0]] + x;
    }
  }

  lemma NoMatchAtSpace(s: string)
    requires s != [] && IsSpace(s[0])
    ensures !MatchesAt(s)
  {
    assert Http[0] == 'h' && Https[0] == 'h' && Www[0] == 'w';
  }

  /** Whether and how far the pattern matches at the start of a is not
      changed by text appended after a whitespace character. */
  lemma MatchBeforeSpace(a: string, x: string)
    requires x != [] && IsSpace(x[0])
    ensures MatchesAt(a + x) == MatchesAt(a)
    ensures MatchLength(a + x) == MatchLength(a)
  {
    WordLengthBeforeSpace(a, x);
    if MatchesAt(a) {
      MatchDependsOnWord(a, a + x);
    }
    if MatchesAt(a + x) {
      MatchDependsOnWord(a + x, a);
    }
  }

  /** The first position at which the pattern matches, or |s| if none does. */
  function FirstMatch(s: string): (i: nat)
    ensures i <= |s|
    ensures forall j :: 0 <= j < i ==> !MatchesAt(s[j..])
    ensures i < |s| ==> MatchesAt(s[i..])
    decreases |s|
  {
    if s == [] || MatchesAt(s) then 0
    else
      assert forall j :: 1 <= j <= |s| ==> s[j..] == s[1..][j - 1..];
      1 + FirstMatch(s[1..])
  }

  /** Within one whitespace-free word the stage keeps everything before the
      first match and deletes the rest of the word. */
  lemma {:induction false} RemovingUrlsWord(w: string)
    requires forall i :: 0 <= i < |w| ==> !IsSpace(w[i])
    ensures RemovingUrls(w) == w[..FirstMatch(w)]
    decreases |w|
  {
    if w != [] {
      if MatchesAt(w) {
        assert MatchLength(w) == |w|;
        assert w[|w|..] == [];
      } else {
        RemovingUrlsWord(w[1..]);
        assert w[..1 + FirstMatch(w[1..])] == [w[0]] + w[1..][..FirstMatch(w[1..])];
      }
    }
  }

  /** Text without ':' and '.' is never changed by removing_urls. */
  lemma RemovingUrlsWithoutColonOrDot(text: string)
    requires forall c :: c in text ==> c != ':' && c != '.'
    ensures RemovingUrls(text) == text
  {
    NoColonNoDotNoMatch(text);
    RemovingUrlsUnchanged(text);
  }

  /** Inside normalize_text, removing_urls runs on the output of
      removing_punctuations, which has turned every ':' and '.' into a blank;
      so the URL stage never changes anything there. */
  lemma UrlStageIsIdentity(text: string)
    ensures RemovingUrls(RemovingPunctuations(text)) == RemovingPunctuations(text)
  {
    RemovingUrlsWithoutColonOrDot(RemovingPunctuations(text));
  }

  // ---------------------------------------------------------------------
  // lower_case
  // ---------------------------------------------------------------------

  /** lower_case: each whitespace token lower-cased, joined with single blanks. */
  function LowerCase(text: string): (r: string)
    ensures Split(r) == MapTokens(Lower, Split(text))
    ensures |Split(r)| == |Split(text)|
    ensures forall c :: c in r ==> !IsUpper(c)
    ensures Canonical(r)
  {
    var toks := MapTokens(Lower, Split(text));
    LoweredTokens(Split(text));
    SplitJoin(toks);
    JoinCanonical(toks);
    Join(toks)
  }

  lemma LoweredTokens(toks: seq<string>)
    requires AllTokens(toks)
    ensures AllTokens(MapTokens(Lower, toks))
    ensures forall c :: c in Join(MapTokens(Lower, toks)) ==> !IsUpper(c)
  {
    var lowered := MapTokens(Lower, toks);
    JoinCharsAll(lowered);
    forall c | c in Join(lowered)
      ensures !IsUpper(c)
    {
      if c != ' ' {
        var k :| 0 <= k < |lowered| && c in lowered[k];
        assert lowered[k] == Lower(toks[k]);
      }
    }
  }

  /** lower_case leaves its input alone exactly when the input is already
      single-spaced and has no upper-case letter; so it is idempotent. */
  lemma LowerCaseUnchanged(text: string)
    ensures LowerCase(text) == text <==> Canonical(text) && forall c :: c in text ==> !IsUpper(c)
  {
    if Canonical(text) && forall c :: c in text ==> !IsUpper(c) {
      var toks := Split(text);
      forall k | 0 <= k < |toks|
        ensures Lower(toks[k]) == toks[k]
      {
        assert forall c :: c in toks[k] ==> c in text;
      }
      assert MapTokens(Lower, toks) == toks;
      CanonicalJoinSplit(text);
    }
  }

  lemma LowerCaseIdempotent(text: string)
    ensures LowerCase(LowerCase(text)) == LowerCase(text)
  {
    LowerCaseUnchanged(LowerCase(text));
  }

  // ---------------------------------------------------------------------
  // normalize_text
  // ---------------------------------------------------------------------

  /** Stages 1 to 5 of normalize_text: the string handed to lemmatization.
      It is lower-case, digit-free, punctuation-free and single-spaced, and
      the URL stage has left it as removing_punctuations produced it. */
  function LemmatizerInput(stopWords: set<string>, text: string): (r: string)
    ensures r == RemovingPunctuations(RemovingNumbers(RemoveStopWords(stopWords, LowerCase(text))))
    ensures Canonical(r)
    ensures forall c :: c in r ==> !IsUpper(c) && !IsDigit(c) && !IsPunctuation(c) && c != ArabicSemicolon
  {
    var lowered := LowerCase(text);
    var withoutStopWords := RemoveStopWords(stopWords, lowered);
    var withoutNumbers := RemovingNumbers(withoutStopWords);
    var withoutPunctuation := RemovingPunctuations(withoutNumbers);
    UrlStageIsIdentity(withoutNumbers);
    CleanedChars(lowered, withoutStopWords, withoutNumbers, withoutPunctuation);
    RemovingUrls(withoutPunctuation)
  }

  /** How the character classes carry through stages 2 to 4. */
  lemma CleanedChars(lowered: string, withoutStopWords: string, withoutNumbers: string, r: string)
    requires forall c :: c in lowered ==> !IsUpper(c)
    requires forall c :: c in withoutStopWords ==> c == ' ' || c in lowered
    requires forall c :: c in withoutNumbers ==> !IsDigit(c) && c in withoutStopWords
    requires forall c :: c in r ==> !IsPunctuation(c) && c != ArabicSemicolon
    requires forall c :: c in r ==> c == ' ' || c in withoutNumbers
    ensures forall c :: c in r ==> !IsUpper(c) && !IsDigit(c) && !IsPunctuation(c) && c != ArabicSemicolon
  {
  }

  /** normalize_text: the six stages in order.  It is total, and text with no
      token (in particular "") normalises to "". */
  function NormalizeText(stopWords: set<string>, lemmatize: string -> string, text: string): (r: string)
    ensures Split(text) == [] ==> r == ""
  {
    Lemmatization(lemmatize, LemmatizerInput(stopWords, text))
  }

  /** With a token-for-token lemmatizer, the normalised text is single-spaced
      and holds the lemma of every token handed to lemmatization, in order. */
  lemma NormalizeTextTokens(stopWords: set<string>, lemmatize: string -> string, text: string)
    requires KeepsTokens(lemmatize)
    ensures var input := LemmatizerInput(stopWords, text);
      var r := NormalizeText(stopWords, lemmatize, text);
      && Canonical(r)
      && |Split(r)| == |Split(input)|
      && forall k :: 0 <= k < |Split(input)| ==> Split(r)[k] == lemmatize(Split(input)[k])
  {
    LemmatizationMapsTokens(lemmatize, LemmatizerInput(stopWords, text));
  }
}
