/**
 * The pieces of `java.lang.String`, `java.util.regex.Pattern` and
 * `java.util.StringTokenizer` that the field-spec parser relies on.
 */
module JavaText {

  /** `String.trim` strips every character whose code is at most U+0020. */
  predicate IsTrimmable(c: char) {
    c <= ' '
  }

  /** The regular-expression class `\s` without the Unicode flag: space, tab, LF, VT, FF, CR. */
  const WhitespaceChars: set<char> := {' ', '\t', '\n', 11 as char, 12 as char, '\r'}

  lemma WhitespaceIsTrimmable()
    ensures forall c :: c in WhitespaceChars ==> IsTrimmable(c)
  {
  }

  /** Index of the first character of `s` that is in `delims`, or `|s|` when there is none. */
  function FirstIn(s: string, delims: set<char>): (i: nat)
    ensures i <= |s|
    ensures forall k :: 0 <= k < i ==> s[k] !in delims
    ensures i < |s| ==> s[i] in delims
  {
    if s == [] || s[0] in delims then 0 else 1 + FirstIn(s[1..], delims)
  }

  /** Length of the run of characters of `delims` that `s` starts with. */
  function SpanIn(s: string, delims: set<char>): (n: nat)
    ensures n <= |s|
    ensures forall k :: 0 <= k < n ==> s[k] in delims
    ensures n < |s| ==> s[n] !in delims
  {
    if s == [] || s[0] !in delims then 0 else 1 + SpanIn(s[1..], delims)
  }

  // ---------------------------------------------------------------------------
  // StringTokenizer
  // ---------------------------------------------------------------------------

  /**
   * The tokens a `StringTokenizer` over `s` with delimiter set `delims` returns:
   * the maximal runs of non-delimiters, in order. Consecutive delimiters never
   * yield an empty token.
   */
  function Tokens(s: string, delims: set<char>): (ts: seq<string>)
    ensures forall t :: t in ts ==> t != [] && forall c :: c in t ==> c !in delims
    decreases |s|
  {
    if s == [] then []
    else if s[0] in delims then Tokens(s[1..], delims)
    else
      var i := FirstIn(s, delims);
      [s[..i]] + Tokens(s[i..], delims)
  }

  /** The pieces between single delimiters, empty pieces included (`a,,b` gives `a`, ``, `b`). */
  function SplitAll(s: string, delims: set<char>): (parts: seq<string>)
    decreases |s|
  {
    var i := FirstIn(s, delims);
    if i == |s| then [s] else [s[..i]] + SplitAll(s[i + 1..], delims)
  }

  /** `parts` without its empty strings. */
  function NonEmpty(parts: seq<string>): seq<string>
  {
    if parts == [] then []
    else (if parts[0] == [] then [] else [parts[0]]) + NonEmpty(parts[1..])
  }

  /** The tokenizer's tokens are exactly the non-empty pieces of splitting at every delimiter. */
  lemma {:induction false} TokensAreNonEmptyPieces(s: string, delims: set<char>)
    ensures Tokens(s, delims) == NonEmpty(SplitAll(s, delims))
    decreases |s|
  {
    if s == [] {
    } else if s[0] in delims {
      assert FirstIn(s, delims) == 0;
      TokensAreNonEmptyPieces(s[1..], delims);
    } else {
      var i := FirstIn(s, delims);
      if i == |s| {
        assert s[..i] == s && s[i..] == [];
      } else {
        TokensAreNonEmptyPieces(s[i + 1..], delims);
        assert s[i..][1..] == s[i + 1..];
        assert NonEmpty([s[..i]] + SplitAll(s[i + 1..], delims))
          == [s[..i]] + NonEmpty(SplitAll(s[i + 1..], delims));
      }
    }
  }

  /** `Tokens` of a delimiter-joined pair is the concatenation of the two token lists. */
  lemma {:induction false} TokensOfJoin(a: string, d: char, b: string, delims: set<char>)
    requires d in delims
    ensures Tokens(a + [d] + b, delims) == Tokens(a, delims) + Tokens(b, delims)
    decreases |a|
  {
    var s := a + [d] + b;
    if a == [] {
      assert s[1..] == b;
    } else if a[0] in delims {
      assert s[1..] == a[1..] + [d] + b;
      TokensOfJoin(a[1..], d, b, delims);
    } else {
      var i := FirstIn(a, delims);
      FirstInOfAppend(a, [d] + b, delims);
      assert s == a + ([d] + b);
      if i == |a| {
        assert ([d] + b)[0] == d;
        assert a[..i] == a;
        assert FirstIn(s, delims) == |a|;
        assert s[..|a|] == a && s[|a|..] == [d] + b;
        assert ([d] + b)[1..] == b;
        assert a[i..] == [];
      } else {
        assert FirstIn(s, delims) == i;
        assert s[..i] == a[..i];
        assert s[i..] == a[i..] + [d] + b;
        TokensOfJoin(a[i..], d, b, delims);
      }
    }
  }

  lemma FirstInOfAppend(a: string, b: string, delims: set<char>)
    ensures FirstIn(a, delims) < |a| ==> FirstIn(a + b, delims) == FirstIn(a, delims)
    ensures FirstIn(a, delims) == |a| ==> FirstIn(a + b, delims) == |a| + FirstIn(b, delims)
  {
    var i, j := FirstIn(a, delims), FirstIn(a + b, delims);
    if i < |a| {
      assert (a + b)[i] == a[i];
      assert forall m :: 0 <= m < i ==> (a + b)[m] == a[m];
    } else {
      var k := FirstIn(b, delims);
      assert forall m :: 0 <= m < |a| ==> (a + b)[m] == a[m];
      assert forall m :: |a| <= m < |a| + k ==> (a + b)[m] == b[m - |a|];
      if |a| + k < |a + b| { assert (a + b)[|a| + k] == b[k]; }
    }
  }

  /** A delimiter-free, non-empty string is one token. */
  lemma SingleToken(w: string, delims: set<char>)
    requires w != [] && forall c :: c in w ==> c !in delims
    ensures Tokens(w, delims) == [w]
  {
    assert w[0] in w;
    assert forall k :: 0 <= k < |w| ==> w[k] in w;
    assert w[..|w|] == w && w[|w|..] == [];
  }

  /** A maximal run of non-delimiters starting at `start` is the first token of `str[start..]`. */
  lemma TokenAt(str: string, start: nat, p: nat, delims: set<char>)
    requires start < p <= |str|
    requires forall k :: start <= k < p ==> str[k] !in delims
    requires p < |str| ==> str[p] in delims
    ensures Tokens(str[start..], delims) == [str[start..p]] + Tokens(str[p..], delims)
  {
    var rest := str[start..];
    assert rest[0] == str[start];
    assert forall k :: 0 <= k < |rest| ==> rest[k] == str[start + k];
    assert FirstIn(rest, delims) == p - start;
    assert rest[..p - start] == str[start..p];
    assert rest[p - start..] == str[p..];
  }

  /**
   * `java.util.StringTokenizer` with `returnDelims` false. `position` is the
   * tokenizer's `currentPosition`; the tokens still to come are `Remaining()`.
   */
  class StringTokenizer {
    const str: string
    const delims: set<char>
    var position: nat

    ghost predicate Valid()
      reads this
    {
      position <= |str|
    }

    /** The tokens `NextToken` has not yet returned. */
    ghost function Remaining(): seq<string>
      reads this
      requires Valid()
    {
      Tokens(str[position..], delims)
    }

    constructor (str: string, delims: set<char>)
      ensures this.str == str && this.delims == delims
      ensures Valid() && Remaining() == Tokens(str, delims)
    {
      this.str := str;
      this.delims := delims;
      position := 0;
      new;
      assert str[0..] == str;
    }

    /** `skipDelimiters`: the first non-delimiter at or after `from`; skipping never loses a token. */
    method SkipDelimiters(from: nat) returns (p: nat)
      requires from <= |str|
      ensures from <= p <= |str|
      ensures p < |str| ==> str[p] !in delims
      ensures Tokens(str[p..], delims) == Tokens(str[from..], delims)
    {
      p := from;
      while p < |str| && str[p] in delims
        invariant from <= p <= |str|
        invariant Tokens(str[p..], delims) == Tokens(str[from..], delims)
      {
        assert str[p..][1..] == str[p + 1..];
        p := p + 1;
      }
    }

    /** `hasMoreTokens`: true exactly when some token is left; the position does not move. */
    method HasMoreTokens() returns (more: bool)
      requires Valid()
      ensures more <==> Remaining() != []
    {
      var p := SkipDelimiters(position);
      more := p < |str|;
      if p == |str| {
        assert str[p..] == [];
      }
    }

    /** `nextToken`: returns the first remaining token and consumes it. */
    method NextToken() returns (token: string)
      requires Valid() && Remaining() != []
      modifies this
      ensures Valid()
      ensures token == old(Remaining())[0]
      ensures Remaining() == old(Remaining())[1..]
    {
      var start := SkipDelimiters(position);
      assert start < |str|;
      var p := start;
      while p < |str| && str[p] !in delims
        invariant start <= p <= |str|
        invariant forall k :: start <= k < p ==> str[k] !in delims
      {
        p := p + 1;
      }
      TokenAt(str, start, p, delims);
      token := str[start..p];
      position := p;
    }
  }

  // ---------------------------------------------------------------------------
  // String.trim
  // ---------------------------------------------------------------------------

  /** `s` without its leading characters at or below U+0020. */
  function TrimStart(s: string): (r: string)
    ensures |r| <= |s| && r == s[|s| - |r|..]
    ensures forall k :: 0 <= k < |s| - |r| ==> IsTrimmable(s[k])
    ensures r == [] || !IsTrimmable(r[0])
    decreases |s|
  {
    if s != [] && IsTrimmable(s[0]) then TrimStart(s[1..]) else s
  }

  /** `s` without its trailing characters at or below U+0020. */
  function TrimEnd(s: string): (r: string)
    ensures |r| <= |s| && r == s[..|r|]
    ensures forall k :: |r| <= k < |s| ==> IsTrimmable(s[k])
    ensures r == [] || !IsTrimmable(r[|r| - 1])
    decreases |s|
  {
    if s != [] && IsTrimmable(s[|s| - 1]) then TrimEnd(s[..|s| - 1]) else s
  }

  /** `r` is `s[i..]` up to length `|r|`, and everything of `s` before and after it is trimmable. */
  predicate StripsTo(s: string, i: nat, r: string)
  {
    && i + |r| <= |s| && r == s[i..i + |r|]
    && (forall k :: 0 <= k < i ==> IsTrimmable(s[k]))
    && (forall k :: i + |r| <= k < |s| ==> IsTrimmable(s[k]))
  }

  /**
   * `String.trim`: the result is the infix of `s` left once its leading and
   * trailing characters at or below U+0020 are removed; neither of its ends is
   * trimmable, and an already-trimmed string is kept.
   */
  function Trim(s: string): (r: string)
    ensures |r| <= |s|
    ensures exists i :: StripsTo(s, i, r)
    ensures r == [] || (!IsTrimmable(r[0]) && !IsTrimmable(r[|r| - 1]))
    ensures (s == [] || (!IsTrimmable(s[0]) && !IsTrimmable(s[|s| - 1]))) ==> r == s
  {
    TrimInfix(s);
    TrimEnd(TrimStart(s))
  }

  lemma TrimInfix(s: string)
    ensures StripsTo(s, |s| - |TrimStart(s)|, TrimEnd(TrimStart(s)))
  {
    StripsBothEnds(s, TrimStart(s), TrimEnd(TrimStart(s)));
  }

  /** Stripping a prefix `s` and then a suffix of what is left leaves an infix with only stripped chars around it. */
  lemma StripsBothEnds(s: string, t: string, r: string)
    requires |t| <= |s| && t == s[|s| - |t|..] && forall k :: 0 <= k < |s| - |t| ==> IsTrimmable(s[k])
    requires |r| <= |t| && r == t[..|r|] && forall k :: |r| <= k < |t| ==> IsTrimmable(t[k])
    ensures StripsTo(s, |s| - |t|, r)
  {
    var i := |s| - |t|;
    assert r == s[i..i + |r|];
    forall k | i + |r| <= k < |s| ensures IsTrimmable(s[k]) {
      assert s[k] == t[k - i];
    }
  }

  // ---------------------------------------------------------------------------
  // String.toLowerCase
  // ---------------------------------------------------------------------------

  function ToLowerChar(c: char): char
  {
    if 'A' <= c <= 'Z' then (c as int + 32) as char else c
  }

  function ToUpperChar(c: char): char
  {
    if 'a' <= c <= 'z' then (c as int - 32) as char else c
  }

  /**
   * `String.toLowerCase` restricted to the ASCII letters: no upper-case letter
   * is left, each one became its lower-case partner, and every other character
   * is kept.
   */
  function ToLowerCase(s: string): (r: string)
    ensures |r| == |s|
    ensures forall i :: 0 <= i < |r| ==> !('A' <= r[i] <= 'Z')
    ensures forall i :: 0 <= i < |s| ==> r[i] == s[i] || ('A' <= s[i] <= 'Z' && ToUpperChar(r[i]) == s[i])
  {
    seq(|s|, i requires 0 <= i < |s| => ToLowerChar(s[i]))
  }

  // ---------------------------------------------------------------------------
  // Pattern.compile("\\s+").split
  // ---------------------------------------------------------------------------

  /** `p` holds no character of `delims`. */
  predicate NoneIn(p: string, delims: set<char>)
  {
    forall c :: c in p ==> c !in delims
  }

  /** `p` holds no character of `\s`. */
  predicate NoWhitespace(p: string)
  {
    NoneIn(p, WhitespaceChars)
  }

  /**
   * What follows the first run of delimiters in `s`. When `s` ends in a
   * non-delimiter, the rest starts and ends in one too.
   */
  function AfterFirstRun(s: string, delims: set<char>): (t: string)
    requires FirstIn(s, delims) < |s|
    ensures |t| < |s|
    ensures s[|s| - 1] !in delims ==> t != [] && t[0] !in delims && t[|t| - 1] == s[|s| - 1]
  {
    var i := FirstIn(s, delims);
    assert s[i..][0] == s[i];
    if s[|s| - 1] in delims then s[i + SpanIn(s[i..], delims)..]
    else
      RestAfterRun(s, i, delims);
      s[i + SpanIn(s[i..], delims)..]
  }

  /** After a delimiter run that starts inside `s`, which ends in a non-delimiter, the rest starts and ends in a non-delimiter. */
  lemma RestAfterRun(s: string, i: nat, delims: set<char>)
    requires i < |s| && s[|s| - 1] !in delims
    ensures i + SpanIn(s[i..], delims) < |s|
    ensures var t := s[i + SpanIn(s[i..], delims)..]; t != [] && t[0] !in delims && t[|t| - 1] == s[|s| - 1]
  {
    var r := s[i..];
    assert r[|r| - 1] == s[|s| - 1];
    AfterSpan(r, delims);
    SuffixKeepsEnds(s, i, SpanIn(r, delims));
  }

  /** The pieces of `s` between maximal runs of delimiters, before trailing empty pieces are dropped. */
  function Segments(s: string, delims: set<char>): (parts: seq<string>)
    ensures |parts| >= 1
    ensures parts[0] == s[..FirstIn(s, delims)]
    decreases |s|
  {
    if FirstIn(s, delims) == |s| then
      assert s[..|s|] == s;
      [s]
    else
      [s[..FirstIn(s, delims)]] + Segments(AfterFirstRun(s, delims), delims)
  }

  /** `parts` without its trailing empty strings. */
  function DropTrailingEmpty(parts: seq<string>): (r: seq<string>)
    ensures |r| <= |parts| && r == parts[..|r|]
    ensures r == [] || r[|r| - 1] != []
  {
    if parts != [] && parts[|parts| - 1] == [] then DropTrailingEmpty(parts[..|parts| - 1]) else parts
  }

  lemma DropTrailingEmptyKeeps(parts: seq<string>)
    requires parts != [] && parts[|parts| - 1] != []
    ensures DropTrailingEmpty(parts) == parts
  {
  }

  /**
   * `Pattern.compile("\\s+").split(s)`: a string without whitespace is its own
   * single piece; otherwise the pieces between whitespace runs, trailing empty
   * pieces removed. No piece contains whitespace.
   */
  function SplitWhitespace(s: string): (parts: seq<string>)
    ensures forall p :: p in parts ==> NoWhitespace(p)
  {
    SegmentsNoneIn(s, WhitespaceChars);
    if FirstIn(s, WhitespaceChars) == |s| then
      NoneUpTo(s, WhitespaceChars);
      assert s[..|s|] == s;
      [s]
    else
      var parts := DropTrailingEmpty(Segments(s, WhitespaceChars));
      assert forall p :: p in parts ==> p in Segments(s, WhitespaceChars);
      parts
  }

  /** One unfolding of `Segments` on a string that has a delimiter. */
  lemma SegmentsStep(s: string, delims: set<char>)
    requires FirstIn(s, delims) < |s|
    ensures Segments(s, delims) == [s[..FirstIn(s, delims)]] + Segments(AfterFirstRun(s, delims), delims)
  {
  }

  /** A string without delimiters is its own single segment. */
  lemma SegmentsWhole(s: string, delims: set<char>)
    requires FirstIn(s, delims) == |s|
    ensures Segments(s, delims) == [s]
  {
  }

  /** A run of delimiters stops before a last character that is not one. */
  lemma SpanStopsBefore(r: string, delims: set<char>)
    requires r != [] && r[|r| - 1] !in delims
    ensures SpanIn(r, delims) < |r|
  {
  }

  /** What follows the leading delimiter run of a string ending in a non-delimiter starts and ends with a non-delimiter. */
  lemma AfterSpan(r: string, delims: set<char>)
    requires r != [] && r[|r| - 1] !in delims
    ensures SpanIn(r, delims) < |r|
    ensures r[SpanIn(r, delims)..][0] !in delims
    ensures r[SpanIn(r, delims)..][|r| - SpanIn(r, delims) - 1] == r[|r| - 1]
  {
    SpanStopsBefore(r, delims);
  }

  /** Dropping `i` and then `n` more characters drops `i + n`; what is left ends where `s` ends. */
  lemma SuffixKeepsEnds<T>(s: seq<T>, i: nat, n: nat)
    requires i + n < |s|
    ensures s[i..][n..] == s[i + n..]
    ensures s[i..][|s| - i - 1] == s[|s| - 1]
  {
  }

  lemma ConsParts<T>(x: T, rest: seq<T>)
    requires rest != []
    ensures |[x] + rest| >= 2
    ensures ([x] + rest)[0] == x && ([x] + rest)[1] == rest[0]
    ensures ([x] + rest)[|[x] + rest| - 1] == rest[|rest| - 1]
  {
  }

  /** A string that starts outside the delimiters has a non-empty first segment. */
  lemma SegmentsHeadNonEmpty(t: string, delims: set<char>)
    requires t != [] && t[0] !in delims
    ensures Segments(t, delims)[0] != []
  {
    assert FirstIn(t, delims) != 0;
  }

  /** The last piece of a string that ends in a non-delimiter is not empty. */
  lemma {:induction false} SegmentsLastNonEmpty(s: string, delims: set<char>)
    requires s != [] && s[|s| - 1] !in delims
    ensures Segments(s, delims)[|Segments(s, delims)| - 1] != []
    decreases |s|
  {
    if FirstIn(s, delims) < |s| {
      var t := AfterFirstRun(s, delims);
      SegmentsStep(s, delims);
      SegmentsLastNonEmpty(t, delims);
      ConsParts(s[..FirstIn(s, delims)], Segments(t, delims));
    } else {
      SegmentsWhole(s, delims);
    }
  }

  /**
   * A string that starts and ends outside the delimiters but has one inside
   * has two or more segments; the first two and the last are non-empty.
   */
  lemma InnerSegments(u: string, delims: set<char>)
    requires u != [] && u[0] !in delims && u[|u| - 1] !in delims
    requires FirstIn(u, delims) < |u|
    ensures |Segments(u, delims)| >= 2
    ensures Segments(u, delims)[0] != [] && Segments(u, delims)[1] != []
    ensures Segments(u, delims)[|Segments(u, delims)| - 1] != []
  {
    var i := FirstIn(u, delims);
    var t := AfterFirstRun(u, delims);
    SegmentsStep(u, delims);
    SegmentsLastNonEmpty(t, delims);
    SegmentsHeadNonEmpty(t, delims);
    ConsParts(u[..i], Segments(t, delims));
    assert u[..i][0] == u[0];
  }

  /** The ends of a trimmed string are not whitespace. */
  lemma TrimmedEnds(u: string)
    requires u != [] && !IsTrimmable(u[0]) && !IsTrimmable(u[|u| - 1])
    ensures u[0] !in WhitespaceChars && u[|u| - 1] !in WhitespaceChars
  {
    WhitespaceIsTrimmable();
  }

  /** A trimmed string with whitespace inside splits into its segments, the first two non-empty. */
  lemma SplitInnerWhitespace(u: string)
    requires u != [] && !IsTrimmable(u[0]) && !IsTrimmable(u[|u| - 1])
    requires FirstIn(u, WhitespaceChars) < |u|
    ensures SplitWhitespace(u) == Segments(u, WhitespaceChars)
    ensures |Segments(u, WhitespaceChars)| >= 2
    ensures Segments(u, WhitespaceChars)[0] != [] && Segments(u, WhitespaceChars)[1] != []
  {
    TrimmedEnds(u);
    InnerSegments(u, WhitespaceChars);
    DropTrailingEmptyKeeps(Segments(u, WhitespaceChars));
    SplitAtWhitespace(u);
  }

  /** A string with whitespace splits into its segments less the trailing empty ones. */
  lemma SplitAtWhitespace(s: string)
    requires FirstIn(s, WhitespaceChars) < |s|
    ensures SplitWhitespace(s) == DropTrailingEmpty(Segments(s, WhitespaceChars))
  {
  }

  /**
   * Splitting a trimmed string: there is always at least one piece; there are
   * two or more exactly when the string contains whitespace, and then the first
   * two pieces are non-empty. No piece contains whitespace.
   */
  lemma SplitTrimmed(u: string)
    requires u == [] || (!IsTrimmable(u[0]) && !IsTrimmable(u[|u| - 1]))
    ensures |SplitWhitespace(u)| >= 1
    ensures |SplitWhitespace(u)| >= 2 <==> exists k :: 0 <= k < |u| && u[k] in WhitespaceChars
    ensures |SplitWhitespace(u)| >= 2 ==> SplitWhitespace(u)[0] != [] && SplitWhitespace(u)[1] != []
    ensures forall p :: p in SplitWhitespace(u) ==> NoWhitespace(p)
  {
    var i := FirstIn(u, WhitespaceChars);
    if i < |u| {
      SplitInnerWhitespace(u);
    }
  }

  /** Skipping a leading run of delimiters loses no token. */
  lemma {:induction false} TokensSkipSpan(r: string, delims: set<char>)
    ensures Tokens(r[SpanIn(r, delims)..], delims) == Tokens(r, delims)
    decreases |r|
  {
    if r != [] && r[0] in delims {
      TokensSkipSpan(r[1..], delims);
      assert r[1..][SpanIn(r[1..], delims)..] == r[SpanIn(r, delims)..];
    }
  }

  /** Between a first and a last character outside the delimiters, the segments are the tokens. */
  lemma {:induction false} SegmentsAreWords(s: string, delims: set<char>)
    requires s != [] && s[0] !in delims && s[|s| - 1] !in delims
    ensures Segments(s, delims) == Tokens(s, delims)
    decreases |s|
  {
    var i := FirstIn(s, delims);
    if i == |s| {
      SegmentsWhole(s, delims);
      FirstInWhole(s, delims);
      SingleToken(s, delims);
    } else {
      var t := AfterFirstRun(s, delims);
      assert t == s[i + SpanIn(s[i..], delims)..];
      SegmentsStep(s, delims);
      SegmentsAreWords(t, delims);
      TokensStep(s, delims);
      SkipRunToRest(s, i, delims);
      calc {
        Segments(s, delims);
        [s[..i]] + Segments(t, delims);
        [s[..i]] + Tokens(s[i..], delims);
        Tokens(s, delims);
      }
    }
  }

  /** A string with no delimiter at all is found to have none. */
  lemma FirstInWhole(s: string, delims: set<char>)
    requires FirstIn(s, delims) == |s|
    ensures forall c :: c in s ==> c !in delims
  {
    forall c | c in s ensures c !in delims {
      var k :| 0 <= k < |s| && s[k] == c;
    }
  }

  /** The first token of a string that starts outside the delimiters runs up to the first delimiter. */
  lemma TokensStep(s: string, delims: set<char>)
    requires s != [] && s[0] !in delims
    ensures Tokens(s, delims) == [s[..FirstIn(s, delims)]] + Tokens(s[FirstIn(s, delims)..], delims)
  {
  }

  /** From a delimiter at `i`, the tokens are those after the whole delimiter run there. */
  lemma SkipRunToRest(s: string, i: nat, delims: set<char>)
    requires i < |s| && s[i] in delims
    ensures Tokens(s[i..], delims) == Tokens(s[i + SpanIn(s[i..], delims)..], delims)
  {
    TokensSkipSpan(s[i..], delims);
    assert s[i..][SpanIn(s[i..], delims)..] == s[i + SpanIn(s[i..], delims)..];
  }

  /**
   * On a trimmed, non-empty string the `\s+` split yields exactly the maximal
   * runs of non-whitespace, in order: the words of the entry.
   */
  lemma SplitIsWords(u: string)
    requires u != [] && !IsTrimmable(u[0]) && !IsTrimmable(u[|u| - 1])
    ensures SplitWhitespace(u) == Tokens(u, WhitespaceChars)
  {
    TrimmedEnds(u);
    SegmentsAreWords(u, WhitespaceChars);
    if FirstIn(u, WhitespaceChars) == |u| {
      SegmentsWhole(u, WhitespaceChars);
    } else {
      SplitInnerWhitespace(u);
    }
  }

  /** The part of `s` before its first delimiter has none. */
  lemma NoneUpTo(s: string, delims: set<char>)
    ensures NoneIn(s[..FirstIn(s, delims)], delims)
  {
    var i := FirstIn(s, delims);
    forall c | c in s[..i] ensures c !in delims {
      var k :| 0 <= k < i && s[..i][k] == c;
      assert s[k] == c;
    }
  }

  /** No segment contains a delimiter. */
  lemma {:induction false} SegmentsNoneIn(s: string, delims: set<char>)
    ensures forall p :: p in Segments(s, delims) ==> NoneIn(p, delims)
    decreases |s|
  {
    NoneUpTo(s, delims);
    if FirstIn(s, delims) < |s| {
      SegmentsStep(s, delims);
      SegmentsNoneIn(AfterFirstRun(s, delims), delims);
    } else {
      SegmentsWhole(s, delims);
      assert s[..|s|] == s;
    }
  }

  lemma FirstInAbsent(s: string, delims: set<char>)
    requires forall c :: c in s ==> c !in delims
    ensures FirstIn(s, delims) == |s|
  {
  }

  /** In `t + [d] + n` the first delimiter is `d`, when `t` has none. */
  lemma PairFirst(t: string, d: char, n: string, delims: set<char>)
    requires NoneIn(t, delims) && d in delims
    ensures FirstIn(t + [d] + n, delims) == |t|
  {
    assert t + [d] + n == t + ([d] + n);
    FirstInAbsent(t, delims);
    FirstInOfAppend(t, [d] + n, delims);
  }

  /** ... and what follows that one-delimiter run is `n`. */
  lemma PairAfter(t: string, d: char, n: string, delims: set<char>)
    requires n != [] && NoneIn(n, delims) && d in delims
    requires FirstIn(t + [d] + n, delims) == |t|
    ensures AfterFirstRun(t + [d] + n, delims) == n
  {
    var u := t + [d] + n;
    AfterFirstRunIs(u, delims);
    PairTails(t, d, n);
    SpanOfOne(d, n, delims);
  }

  /** One unfolding of `AfterFirstRun`. */
  lemma AfterFirstRunIs(s: string, delims: set<char>)
    requires FirstIn(s, delims) < |s|
    ensures AfterFirstRun(s, delims) == s[FirstIn(s, delims) + SpanIn(s[FirstIn(s, delims)..], delims)..]
  {
  }

  /** The suffixes of `t + [d] + n` from the delimiter on and after it. */
  lemma PairTails(t: string, d: char, n: string)
    ensures (t + [d] + n)[|t|..] == [d] + n
    ensures (t + [d] + n)[|t| + 1..] == n
  {
  }

  /** A single delimiter followed by a string that starts outside the delimiters is a run of length one. */
  lemma SpanOfOne(d: char, n: string, delims: set<char>)
    requires n != [] && NoneIn(n, delims) && d in delims
    ensures SpanIn([d] + n, delims) == 1
  {
    assert n[0] in n;
    assert ([d] + n)[1..] == n;
  }

  /** Two delimiter-free words with one delimiter between them are its two segments. */
  lemma SegmentsOfPair(t: string, d: char, n: string, delims: set<char>)
    requires n != [] && NoneIn(t, delims) && NoneIn(n, delims) && d in delims
    ensures Segments(t + [d] + n, delims) == [t, n]
  {
    var u := t + [d] + n;
    PairFirst(t, d, n, delims);
    PairAfter(t, d, n, delims);
    SegmentsStep(u, delims);
    FirstInAbsent(n, delims);
    SegmentsWhole(n, delims);
    assert u[..|t|] == t;
  }

  /** Two whitespace-free words with one space between them split back into the two words. */
  lemma SplitPair(t: string, n: string)
    requires t != [] && n != [] && NoWhitespace(t) && NoWhitespace(n)
    ensures SplitWhitespace(t + " " + n) == [t, n]
  {
    assert ' ' in WhitespaceChars;
    SegmentsOfPair(t, ' ', n, WhitespaceChars);
    PairFirst(t, ' ', n, WhitespaceChars);
    DropTrailingEmptyKeeps([t, n]);
  }

  /** A string whose ends are not trimmable is its own trim, with or without one leading space. */
  lemma TrimPadded(u: string)
    requires u != [] && !IsTrimmable(u[0]) && !IsTrimmable(u[|u| - 1])
    ensures Trim(u) == u
    ensures Trim(" " + u) == u
  {
    assert (" " + u)[1..] == u;
    assert TrimStart(" " + u) == TrimStart(u);
  }

  // ---------------------------------------------------------------------------
  // String.replace(char, char)
  // ---------------------------------------------------------------------------

  /** `s.replace(from, to)`: every `from` becomes `to`, every other character stays. */
  function Replace(s: string, from: char, to: char): (r: string)
    ensures |r| == |s|
    ensures forall i :: 0 <= i < |s| ==> r[i] == (if s[i] == from then to else s[i])
    decreases |s|
  {
    if s == [] then [] else [if s[0] == from then to else s[0]] + Replace(s[1..], from, to)
  }

  /** After replacing a character by a different one, none of it is left, and nothing else was touched. */
  lemma ReplaceRemoves(s: string, from: char, to: char)
    requires from != to
    ensures from !in Replace(s, from, to)
    ensures forall i :: 0 <= i < |s| && s[i] != from ==> Replace(s, from, to)[i] == s[i]
    ensures from !in s ==> Replace(s, from, to) == s
  {
  }
}
