/** The compiled pattern r'https?://\S+|www\.\S+' of removing_urls:
    where it matches and how far a match reaches. */
module UrlRegex {
  import opened PyStr

  const Http: string := "http://"
  const Https: string := "https://"
  const Www: string := "www."

  /** s begins with prefix followed by at least one non-whitespace character
      (the "\S+" after each alternative). */
  predicate PrefixThenWord(prefix: string, s: string)
  {
    |prefix| < |s| && s[..|prefix|] == prefix && !IsSpace(s[|prefix|])
  }

  /** The pattern matches at the start of s.  "https?" tries "https" first
      and falls back to "http", so both literal prefixes are alternatives. */
  predicate MatchesAt(s: string)
  {
    PrefixThenWord(Http, s) || PrefixThenWord(Https, s) || PrefixThenWord(Www, s)
  }

  /** No position of s starts a match, so re.sub has nothing to replace. */
  ghost predicate NoMatch(s: string)
  {
    forall i :: 0 <= i <= |s| ==> !MatchesAt(s[i..])
  }

  /** Length of the match at the start of s: the greedy "\S+" runs up to the
      next whitespace, and the literal prefixes hold no whitespace, so a match
      covers the whole leading word.  0 when the pattern does not match. */
  function MatchLength(s: string): (n: nat)
    ensures n > 0 <==> MatchesAt(s)
    ensures n <= |s|
    ensures forall i :: 0 <= i < n ==> !IsSpace(s[i])
    ensures 0 < n < |s| ==> IsSpace(s[n])
  {
    if MatchesAt(s) then
      MatchedWordIsLong(s);
      WordLength(s)
    else 0
  }

  lemma MatchedWordIsLong(s: string)
    requires MatchesAt(s)
    ensures WordLength(s) > |Www|
  {
    var p := if PrefixThenWord(Http, s) then Http else if PrefixThenWord(Https, s) then Https else Www;
    assert PrefixThenWord(p, s);
    assert forall i :: 0 <= i < |p| ==> s[i] == p[i] && !IsSpace(p[i]);
    assert WordLength(s) > |p|;
  }

  /** Whether the pattern matches depends only on the leading word: another
      string with that same leading word matches too. */
  lemma MatchDependsOnWord(x: string, y: string)
    requires MatchesAt(x)
    requires WordLength(x) <= |y| && y[..WordLength(x)] == x[..WordLength(x)]
    ensures MatchesAt(y)
  {
    MatchedWordIsLong(x);
    var n := WordLength(x);
    forall p | p in [Http, Https, Www] && PrefixThenWord(p, x)
      ensures PrefixThenWord(p, y)
    {
      assert forall i :: 0 <= i < |p| ==> x[i] == p[i] && !IsSpace(p[i]);
      assert |p| < n;
      assert y[..|p|] == y[..n][..|p|] == x[..n][..|p|] == p;
      assert y[|p|] == y[..n][|p|] == x[..n][|p|];
    }
  }

  /** Every alternative needs a ':' or a '.', so text without both never matches. */
  lemma NoColonNoDotNoMatch(s: string)
    requires forall c :: c in s ==> c != ':' && c != '.'
    ensures NoMatch(s)
  {
    forall i | 0 <= i <= |s|
      ensures !MatchesAt(s[i..])
    {
      var t := s[i..];
      assert forall j :: 0 <= j < |t| ==> t[j] in s;
      assert Http[4] == ':' && Https[5] == ':' && Www[3] == '.';
    }
  }
}
