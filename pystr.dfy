/** The Python string built-ins the normaliser is assembled from: the
    whitespace class shared by str.split(), str.strip() and the regular
    expression class \s, str.isdigit() and str.lower() on ASCII,
    str.split() with no argument, " ".join(...), str.strip(),
    re.sub('\s+', ' ', ...) and list-comprehension filtering. */
module PyStr {

  // ---------------------------------------------------------------------
  // Characters
  // ---------------------------------------------------------------------

  /** Python's str.isspace() for one character.  str.split(), str.strip()
      and \s in a str pattern all use this same class. */
  predicate IsSpace(c: char)
  {
    ('\t' <= c <= '\r') || ('\U{1C}' <= c <= ' ') || c == '\U{85}' || c == '\U{A0}'
    || c == '\U{1680}' || ('\U{2000}' <= c <= '\U{200A}') || c == '\U{2028}'
    || c == '\U{2029}' || c == '\U{202F}' || c == '\U{205F}' || c == '\U{3000}'
  }

  predicate NotSpace(c: char)
  {
    !IsSpace(c)
  }

  /** str.isdigit(), restricted to the ASCII digits. */
  predicate IsDigit(c: char)
  {
    '0' <= c <= '9'
  }

  /** An upper-case letter, restricted to ASCII. */
  predicate IsUpper(c: char)
  {
    'A' <= c <= 'Z'
  }

  function LowerChar(c: char): (d: char)
    ensures !IsUpper(d)
    ensures IsSpace(d) == IsSpace(c)
    ensures !IsUpper(c) ==> d == c
  {
    if IsUpper(c) then (c as int - 'A' as int + 'a' as int) as char else c
  }

  /** str.lower() on ASCII: every upper-case letter becomes lower case,
      every other character is kept. */
  function Lower(s: string): (r: string)
    ensures |r| == |s|
    ensures forall c :: c in r ==> !IsUpper(c)
    ensures IsToken(s) ==> IsToken(r)
    ensures (forall c :: c in s ==> !IsUpper(c)) ==> r == s
  {
    seq(|s|, i requires 0 <= i < |s| => LowerChar(s[i]))
  }

  // ---------------------------------------------------------------------
  // Sequences
  // ---------------------------------------------------------------------

  /** a can be obtained from b by deleting elements: the kept ones stay in order. */
  ghost predicate IsSubsequence<T>(a: seq<T>, b: seq<T>)
    decreases |b|
  {
    a == [] || (b != [] && ((a[0] == b[0] && IsSubsequence(a[1..], b[1..])) || IsSubsequence(a, b[1..])))
  }

  lemma {:induction false} SubsequenceOfSuffix<T>(a: seq<T>, b: seq<T>, k: nat)
    requires k <= |b|
    requires IsSubsequence(a, b[k..])
    ensures IsSubsequence(a, b)
    decreases k
  {
    if k > 0 {
      assert b[1..][k - 1..] == b[k..];
      SubsequenceOfSuffix(a, b[1..], k - 1);
    } else {
      assert b[k..] == b;
    }
  }

  /** [x for x in s if keep(x)] */
  function Filter<T(!new)>(keep: T -> bool, s: seq<T>): (r: seq<T>)
    ensures |r| <= |s|
    ensures forall x :: x in r <==> x in s && keep(x)
  {
    if s == [] then []
    else (if keep(s[0]) then [s[0]] else []) + Filter(keep, s[1..])
  }

  /** A filter keeps every occurrence of a kept element. */
  lemma {:induction false} FilterCounts<T(!new)>(keep: T -> bool, s: seq<T>)
    ensures forall x :: keep(x) ==> multiset(Filter(keep, s))[x] == multiset(s)[x]
  {
    if s != [] {
      FilterCounts(keep, s[1..]);
      assert s == [s[0]] + s[1..];
    }
  }

  lemma {:induction false} FilterNone<T(!new)>(keep: T -> bool, s: seq<T>)
    requires forall i :: 0 <= i < |s| ==> !keep(s[i])
    ensures Filter(keep, s) == []
  {
    if s != [] {
      FilterNone(keep, s[1..]);
    }
  }

  lemma {:induction false} FilterConcat<T(!new)>(keep: T -> bool, a: seq<T>, b: seq<T>)
    ensures Filter(keep, a + b) == Filter(keep, a) + Filter(keep, b)
  {
    if a == [] {
      assert a + b == b;
    } else {
      assert (a + b)[0] == a[0];
      assert (a + b)[1..] == a[1..] + b;
      FilterConcat(keep, a[1..], b);
    }
  }

  lemma {:induction false} FilterIsSubsequence<T(!new)>(keep: T -> bool, s: seq<T>)
    ensures IsSubsequence(Filter(keep, s), s)
  {
    if s != [] {
      FilterIsSubsequence(keep, s[1..]);
      var r := Filter(keep, s);
      if keep(s[0]) {
        assert r[0] == s[0] && r[1..] == Filter(keep, s[1..]);
      } else {
        assert r == Filter(keep, s[1..]);
      }
    }
  }

  /** Filtering changes nothing exactly when every element is kept. */
  lemma {:induction false} FilterUnchanged<T(!new)>(keep: T -> bool, s: seq<T>)
    ensures Filter(keep, s) == s <==> forall x :: x in s ==> keep(x)
  {
    if s != [] && forall x :: x in s ==> keep(x) {
      assert forall x :: x in s[1..] ==> x in s;
      FilterUnchanged(keep, s[1..]);
      assert s == [s[0]] + s[1..];
    }
  }

  /** The "if" half of FilterUnchanged as a plain implication, for callers
      whose context is already heavy with quantifiers. */
  lemma FilterKeepsAll<T(!new)>(keep: T -> bool, s: seq<T>)
    requires forall x :: x in s ==> keep(x)
    ensures Filter(keep, s) == s
  {
    FilterUnchanged(keep, s);
  }

  // ---------------------------------------------------------------------
  // Tokens: str.split() and " ".join(...)
  // ---------------------------------------------------------------------

  /** A piece str.split() can return: non-empty and whitespace-free. */
  predicate IsToken(t: string)
  {
    |t| > 0 && forall i :: 0 <= i < |t| ==> !IsSpace(t[i])
  }

  predicate AllTokens(toks: seq<string>)
  {
    forall k :: 0 <= k < |toks| ==> IsToken(toks[k])
  }

  /** Length of the longest whitespace-free prefix of s. */
  function WordLength(s: string): (n: nat)
    ensures n <= |s|
    ensures forall i :: 0 <= i < n ==> !IsSpace(s[i])
    ensures n < |s| ==> IsSpace(s[n])
  {
    if s == [] || IsSpace(s[0]) then 0 else 1 + WordLength(s[1..])
  }

  /** Text after a whitespace character does not change the leading word. */
  lemma {:induction false} WordLengthBeforeSpace(a: string, x: string)
    requires x != [] && IsSpace(x[0])
    ensures WordLength(a + x) == WordLength(a)
    ensures (a + x)[..WordLength(a)] == a[..WordLength(a)]
    decreases |a|
  {
    if a == [] {
      assert a + x == x;
    } else if !IsSpace(a[0]) {
      WordLengthBeforeSpace(a[1..], x);
      assert (a + x)[1..] == a[1..] + x;
      var n := WordLength(a[1..]);
      assert (a + x)[..1 + n] == [a[0]] + (a[1..] + x)[..n];
      assert a[..1 + n] == [a[0]] + a[1..][..n];
    } else {
      assert (a + x)[0] == a[0];
    }
  }

  /** Length of the longest all-whitespace prefix of s. */
  function SpaceLength(s: string): (n: nat)
    ensures n <= |s|
    ensures forall i :: 0 <= i < n ==> IsSpace(s[i])
    ensures n < |s| ==> !IsSpace(s[n])
  {
    if s == [] || !IsSpace(s[0]) then 0 else 1 + SpaceLength(s[1..])
  }

  /** str.split() with no argument: the maximal whitespace-free runs of s,
      left to right; runs of whitespace only separate, and no empty piece
      is produced. */
  function Split(s: string): (toks: seq<string>)
    ensures AllTokens(toks)
    ensures forall k, c :: 0 <= k < |toks| && c in toks[k] ==> c in s
    decreases |s|
  {
    if s == [] then []
    else if IsSpace(s[0]) then
      assert forall c :: c in s[1..] ==> c in s;
      Split(s[1..])
    else
      var n := WordLength(s);
      assert forall c :: c in s[n..] ==> c in s;
      assert forall c :: c in s[..n] ==> c in s;
      [s[..n]] + Split(s[n..])
  }

  /** " ".join(toks) */
  function Join(toks: seq<string>): string
  {
    if toks == [] then ""
    else if |toks| == 1 then toks[0]
    else toks[0] + " " + Join(toks[1..])
  }

  /** The shape " ".join(...) produces: the only whitespace is single
      blanks, each between two non-whitespace characters. */
  predicate Canonical(s: string)
  {
    NoEdgeSpace(s) && NoDoubleSpace(s) && OnlyBlanks(s)
  }

  predicate NoEdgeSpace(s: string)
  {
    s == [] || (!IsSpace(s[0]) && !IsSpace(s[|s| - 1]))
  }

  predicate NoDoubleSpace(s: string)
  {
    forall i :: 0 < i < |s| && IsSpace(s[i]) ==> !IsSpace(s[i - 1])
  }

  predicate OnlyBlanks(s: string)
  {
    forall i :: 0 <= i < |s| && IsSpace(s[i]) ==> s[i] == ' '
  }

  lemma SplitSkipsSpace(c: char, x: string)
    requires IsSpace(c)
    ensures Split([c] + x) == Split(x)
  {
    assert ([c] + x)[1..] == x;
  }

  /** Prepending a non-whitespace character either starts a new first token
      or extends the first token, depending on what x starts with. */
  lemma SplitCons(c: char, x: string)
    requires !IsSpace(c)
    ensures Split([c] + x) ==
      if x == [] || IsSpace(x[0]) then [[c]] + Split(x)
      else [[c] + Split(x)[0]] + Split(x)[1..]
  {
    var s := [c] + x;
    assert s[0] == c && s[1..] == x;
    var m := WordLength(x);
    assert WordLength(s) == 1 + m;
    assert s[..1 + m] == [c] + x[..m];
    assert s[1 + m..] == x[m..];
  }

  lemma {:induction false} SplitSkipsSpaces(s: string, k: nat)
    requires k <= |s|
    requires forall i :: 0 <= i < k ==> IsSpace(s[i])
    ensures Split(s[k..]) == Split(s)
    decreases k
  {
    if k == 0 {
      assert s[k..] == s;
    } else {
      assert s[1..][k - 1..] == s[k..];
      SplitSkipsSpaces(s[1..], k - 1);
    }
  }

  lemma {:induction false} SplitSnocSpace(p: string, c: char)
    requires IsSpace(c)
    ensures Split(p + [c]) == Split(p)
    decreases |p|
  {
    if p == [] {
      assert p + [c] == [c] + [];
      SplitSkipsSpace(c, []);
    } else {
      var d := p[0];
      assert p + [c] == [d] + (p[1..] + [c]);
      assert p == [d] + p[1..];
      SplitSnocSpace(p[1..], c);
      if IsSpace(d) {
        SplitSkipsSpace(d, p[1..] + [c]);
        SplitSkipsSpace(d, p[1..]);
      } else {
        SplitCons(d, p[1..] + [c]);
        SplitCons(d, p[1..]);
      }
    }
  }

  lemma SplitOfToken(t: string)
    requires IsToken(t)
    ensures Split(t) == [t]
  {
    assert WordLength(t) == |t|;
    assert t[..|t|] == t && t[|t|..] == [];
  }

  lemma TokenIsCanonical(t: string)
    requires IsToken(t)
    ensures Canonical(t)
  {
  }

  /** A token followed by nothing or by whitespace is split off whole. */
  lemma SplitTokenThen(t: string, x: string)
    requires IsToken(t)
    requires x == [] || IsSpace(x[0])
    ensures Split(t + x) == [t] + Split(x)
  {
    var s := t + x;
    assert forall i :: 0 <= i < |t| ==> s[i] == t[i];
    if x != [] {
      assert s[|t|] == x[0];
    }
    assert WordLength(s) == |t|;
    assert s[..|t|] == t && s[|t|..] == x;
  }

  /** Splitting undoes joining, for pieces str.split() could have produced. */
  lemma {:induction false} SplitJoin(toks: seq<string>)
    requires AllTokens(toks)
    ensures Split(Join(toks)) == toks
  {
    if |toks| == 1 {
      SplitOfToken(toks[0]);
    } else if |toks| > 1 {
      var t, j := toks[0], Join(toks[1..]);
      var s := t + " " + j;
      assert s[|t|] == ' ';
      assert forall i :: 0 <= i < |t| ==> s[i] == t[i];
      assert WordLength(s) == |t|;
      assert s[..|t|] == t;
      assert s[|t|..] == [' '] + j;
      SplitSkipsSpace(' ', j);
      SplitJoin(toks[1..]);
      assert toks == [t] + toks[1..];
    }
  }

  lemma {:induction false} JoinCanonical(toks: seq<string>)
    requires AllTokens(toks)
    ensures Canonical(Join(toks))
    ensures toks != [] ==> Join(toks) != []
  {
    if |toks| > 1 {
      var t, j := toks[0], Join(toks[1..]);
      JoinCanonical(toks[1..]);
      var s := t + " " + j;
      assert forall i :: 0 <= i < |t| ==> s[i] == t[i];
      assert s[|t|] == ' ';
      assert forall i :: |t| < i < |s| ==> s[i] == j[i - |t| - 1];
    }
  }

  /** A suffix of a canonical string that starts with a visible character
      is canonical. */
  lemma CanonicalSuffix(s: string, k: nat)
    requires Canonical(s) && k < |s| && !IsSpace(s[k])
    ensures Canonical(s[k..])
  {
    var u := s[k..];
    assert forall i :: 0 <= i < |u| ==> u[i] == s[k + i];
  }

  /** A canonical string is the join of its own tokens. */
  lemma {:induction false} CanonicalJoinSplit(s: string)
    requires Canonical(s)
    ensures Join(Split(s)) == s
    decreases |s|
  {
    if s != [] {
      var n := CanonicalFirstWord(s);
      if n == |s| {
        SplitOfToken(s);
      } else {
        var u := s[n + 1..];
        CanonicalSuffix(s, n + 1);
        CanonicalJoinSplit(u);
        JoinSplitTokenThen(s[..n], u);
      }
    }
  }

  /** One step of CanonicalJoinSplit: a token, a blank, and a rest that is
      already the join of its tokens. */
  lemma JoinSplitTokenThen(t: string, u: string)
    requires IsToken(t) && u != [] && Join(Split(u)) == u
    ensures Join(Split(t + " " + u)) == t + " " + u
  {
    assert t + " " + u == t + ([' '] + u);
    SplitTokenThen(t, [' '] + u);
    SplitSkipsSpace(' ', u);
    JoinCons(t, Split(u));
  }

  /** A non-empty canonical string is one token, or a token, a blank and a
      non-empty rest that starts with a visible character. */
  lemma CanonicalFirstWord(s: string) returns (n: nat)
    requires Canonical(s) && s != []
    ensures n == WordLength(s) && 0 < n <= |s| && IsToken(s[..n])
    ensures n == |s| ==> IsToken(s)
    ensures n < |s| ==>
      (n + 1 < |s| && s[n] == ' ' && !IsSpace(s[n + 1]) && s == s[..n] + " " + s[n + 1..])
  {
    n := WordLength(s);
    var t := s[..n];
    assert forall i :: 0 <= i < n ==> t[i] == s[i];
    if n == |s| {
      assert t == s;
    } else {
      assert s[n] == ' ' && n < |s| - 1;
      assert s == t + " " + s[n + 1..];
    }
  }

  lemma JoinCons(t: string, rest: seq<string>)
    requires rest != []
    ensures Join([t] + rest) == t + " " + Join(rest)
  {
    assert ([t] + rest)[1..] == rest;
  }

  lemma {:induction false} JoinChars(toks: seq<string>, c: char)
    requires c in Join(toks)
    ensures c == ' ' || exists k :: 0 <= k < |toks| && c in toks[k]
  {
    if |toks| > 1 {
      if c !in toks[0] && c != ' ' {
        JoinChars(toks[1..], c);
        var k :| 0 <= k < |toks[1..]| && c in toks[1..][k];
        assert c in toks[k + 1];
      }
    }
  }

  lemma JoinCharsAll(toks: seq<string>)
    ensures forall c :: c in Join(toks) ==> c == ' ' || exists k :: 0 <= k < |toks| && c in toks[k]
  {
    forall c | c in Join(toks)
      ensures c == ' ' || exists k :: 0 <= k < |toks| && c in toks[k]
    {
      JoinChars(toks, c);
    }
  }

  /** Every character of Join(Split(s)) is a blank or a character of s. */
  lemma JoinSplitChars(s: string)
    ensures forall c :: c in Join(Split(s)) ==> c == ' ' || c in s
  {
    forall c | c in Join(Split(s))
      ensures c == ' ' || c in s
    {
      JoinChars(Split(s), c);
    }
  }

  // ---------------------------------------------------------------------
  // str.strip() and re.sub('\s+', ' ', ...)
  // ---------------------------------------------------------------------

  /** Drops the leading whitespace of s. */
  function TrimStart(s: string): (r: string)
    ensures |r| <= |s| && r == s[|s| - |r|..]
    ensures forall i :: 0 <= i < |s| - |r| ==> IsSpace(s[i])
    ensures r == [] || !IsSpace(r[0])
  {
    if s != [] && IsSpace(s[0]) then TrimStart(s[1..]) else s
  }

  /** Drops the trailing whitespace of s. */
  function TrimEnd(s: string): (r: string)
    ensures |r| <= |s| && r == s[..|r|]
    ensures forall i :: |r| <= i < |s| ==> IsSpace(s[i])
    ensures r == [] || !IsSpace(r[|r| - 1])
  {
    if s != [] && IsSpace(s[|s| - 1]) then TrimEnd(s[..|s| - 1]) else s
  }

  /** str.strip() with no argument. */
  function Strip(s: string): (r: string)
    ensures NoEdgeSpace(r)
  {
    TrimEnd(TrimStart(s))
  }

  /** re.sub('\s+', ' ', s): every maximal run of whitespace becomes one blank. */
  function CollapseWhitespace(s: string): (r: string)
    ensures OnlyBlanks(r) && NoDoubleSpace(r)
    ensures r == [] <==> s == []
    ensures r != [] ==> IsSpace(r[0]) == IsSpace(s[0])
    decreases |s|
  {
    if s == [] then []
    else if IsSpace(s[0]) then [' '] + CollapseWhitespace(s[SpaceLength(s)..])
    else [s[0]] + CollapseWhitespace(s[1..])
  }

  lemma {:induction false} SplitCollapseWhitespace(s: string)
    ensures Split(CollapseWhitespace(s)) == Split(s)
    decreases |s|
  {
    if s != [] {
      if IsSpace(s[0]) {
        var k := SpaceLength(s);
        SplitCollapseWhitespace(s[k..]);
        SplitSkipsSpace(' ', CollapseWhitespace(s[k..]));
        SplitSkipsSpaces(s, k);
      } else {
        var rest := CollapseWhitespace(s[1..]);
        SplitCollapseWhitespace(s[1..]);
        SplitCons(s[0], rest);
        SplitCons(s[0], s[1..]);
        assert s == [s[0]] + s[1..];
      }
    }
  }

  lemma {:induction false} SplitTrimEnd(s: string)
    ensures Split(TrimEnd(s)) == Split(s)
    decreases |s|
  {
    if s != [] && IsSpace(s[|s| - 1]) {
      SplitTrimEnd(s[..|s| - 1]);
      assert s == s[..|s| - 1] + [s[|s| - 1]];
      SplitSnocSpace(s[..|s| - 1], s[|s| - 1]);
    }
  }

  lemma SplitStrip(s: string)
    ensures Split(Strip(s)) == Split(s)
  {
    var t := TrimStart(s);
    SplitSkipsSpaces(s, |s| - |t|);
    SplitTrimEnd(t);
  }

  /** Stripping a string whose whitespace is single blanks leaves it canonical. */
  lemma StripCanonical(c: string)
    requires OnlyBlanks(c) && NoDoubleSpace(c)
    ensures Canonical(Strip(c))
  {
    var t := TrimStart(c);
    SliceKeepsBlanks(c, |c| - |t|, |c|);
    SliceKeepsBlanks(t, 0, |TrimEnd(t)|);
  }

  lemma SliceKeepsBlanks(s: string, a: nat, b: nat)
    requires a <= b <= |s|
    requires OnlyBlanks(s) && NoDoubleSpace(s)
    ensures OnlyBlanks(s[a..b]) && NoDoubleSpace(s[a..b])
  {
    var r := s[a..b];
    forall i | 0 <= i < |r| && IsSpace(r[i])
      ensures r[i] == ' ' && (i > 0 ==> !IsSpace(r[i - 1]))
    {
      assert r[i] == s[a + i];
      if i > 0 {
        assert r[i - 1] == s[a + i - 1];
      }
    }
  }

  /** re.sub('\s+', ' ', s).strip() is " ".join(s.split()). */
  lemma StripCollapseIsJoinSplit(s: string)
    ensures Strip(CollapseWhitespace(s)) == Join(Split(s))
    ensures Canonical(Join(Split(s)))
  {
    var c := CollapseWhitespace(s);
    StripCanonical(c);
    SplitCollapseWhitespace(s);
    SplitStrip(c);
    CanonicalJoinSplit(Strip(c));
  }

  /** Collapsing and stripping whitespace never touches a visible character. */
  lemma {:induction false} VisibleCollapseWhitespace(s: string)
    ensures Filter(NotSpace, CollapseWhitespace(s)) == Filter(NotSpace, s)
    decreases |s|
  {
    if s != [] {
      assert s == [s[0]] + s[1..];
      FilterConcat(NotSpace, [s[0]], s[1..]);
      if IsSpace(s[0]) {
        var k := SpaceLength(s);
        VisibleCollapseWhitespace(s[k..]);
        FilterConcat(NotSpace, [' '], CollapseWhitespace(s[k..]));
        assert s == s[..k] + s[k..];
        FilterConcat(NotSpace, s[..k], s[k..]);
        FilterNone(NotSpace, s[..k]);
      } else {
        VisibleCollapseWhitespace(s[1..]);
        FilterConcat(NotSpace, [s[0]], CollapseWhitespace(s[1..]));
      }
    }
  }

  lemma {:induction false} VisibleTrimStart(s: string)
    ensures Filter(NotSpace, TrimStart(s)) == Filter(NotSpace, s)
    decreases |s|
  {
    if s != [] && IsSpace(s[0]) {
      VisibleTrimStart(s[1..]);
    }
  }

  lemma {:induction false} VisibleTrimEnd(s: string)
    ensures Filter(NotSpace, TrimEnd(s)) == Filter(NotSpace, s)
    decreases |s|
  {
    if s != [] && IsSpace(s[|s| - 1]) {
      var init := s[..|s| - 1];
      VisibleTrimEnd(init);
      assert s == init + [s[|s| - 1]];
      FilterConcat(NotSpace, init, [s[|s| - 1]]);
      assert Filter(NotSpace, [s[|s| - 1]]) == [];
    }
  }

  lemma VisibleStrip(s: string)
    ensures Filter(NotSpace, Strip(s)) == Filter(NotSpace, s)
  {
    VisibleTrimStart(s);
    VisibleTrimEnd(TrimStart(s));
  }

  /** " ".join(s.split()) keeps every non-whitespace character of s, in order. */
  lemma VisibleJoinSplit(s: string)
    ensures Filter(NotSpace, Join(Split(s))) == Filter(NotSpace, s)
  {
    StripCollapseIsJoinSplit(s);
    VisibleStrip(CollapseWhitespace(s));
    VisibleCollapseWhitespace(s);
  }
}
