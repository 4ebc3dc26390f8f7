/** The JavaScript string operations the section upsert is built from:
    `indexOf`, `substring`, `trim`, `trimEnd`, and the number of matches of a
    global regular expression made of plain characters. Indices are over the
    sequence of characters. */
module Strings {

  /** `p` occurs in `s` at index `i`. */
  predicate MatchAt(s: string, p: string, i: int) {
    0 <= i && i + |p| <= |s| && s[i..i + |p|] == p
  }

  predicate Contains(s: string, p: string) {
    exists i :: 0 <= i <= |s| && MatchAt(s, p, i)
  }

  /** `s.indexOf(p, from)`: the first occurrence at or after `from`, or -1
      (IndexOfFromFirst). */
  function IndexOfFrom(s: string, p: string, from: nat): (r: int)
    requires from <= |s|
    ensures r == -1 || (from <= r && r + |p| <= |s|)
    decreases |s| - from
  {
    if from + |p| > |s| then -1
    else if s[from..from + |p|] == p then from
    else IndexOfFrom(s, p, from + 1)
  }

  /** `s.indexOf(p)` (IndexOfFirst). */
  function IndexOf(s: string, p: string): (r: int)
    ensures r == -1 || r + |p| <= |s|
  {
    IndexOfFrom(s, p, 0)
  }

  /** IndexOfFrom finds a match, and no match lies between `from` and it;
      -1 means there is no match at or after `from`. */
  lemma {:induction false} IndexOfFromFirst(s: string, p: string, from: nat)
    requires from <= |s|
    ensures var r := IndexOfFrom(s, p, from);
      && (r == -1 || MatchAt(s, p, r))
      && forall j :: from <= j && (r == -1 || j < r) ==> !MatchAt(s, p, j)
    decreases |s| - from
  {
    if from + |p| <= |s| && s[from..from + |p|] != p {
      IndexOfFromFirst(s, p, from + 1);
    }
  }

  /** IndexOf is -1 exactly when there is no match, and otherwise the first match. */
  lemma IndexOfFirst(s: string, p: string)
    ensures IndexOf(s, p) == -1 <==> !Contains(s, p)
    ensures IndexOf(s, p) != -1 ==>
      MatchAt(s, p, IndexOf(s, p)) && forall j :: 0 <= j < IndexOf(s, p) ==> !MatchAt(s, p, j)
  {
    IndexOfFromFirst(s, p, 0);
  }

  /** `s.substring(a, b)` for indices within the string: the arguments are
      swapped when `a > b`, so the order of the two indices does not matter
      and the result is the run of characters from the smaller one. */
  function Substring(s: string, a: nat, b: nat): (r: string)
    requires a <= |s| && b <= |s|
    ensures |r| == if a <= b then b - a else a - b
    ensures forall i :: 0 <= i < |r| ==> r[i] == s[if a <= b then a + i else b + i]
  {
    if a <= b then s[a..b] else s[b..a]
  }

  /** The characters that `trim` and `trimEnd` remove: ECMAScript WhiteSpace
      and LineTerminator. */
  predicate IsWhitespace(c: char) {
    || c == ' ' || c == '\t' || c == '\n' || c == '\r'
    || c == '\U{000B}' || c == '\U{000C}' || c == '\U{00A0}' || c == '\U{FEFF}'
    || c == '\U{1680}' || ('\U{2000}' <= c <= '\U{200A}')
    || c == '\U{2028}' || c == '\U{2029}' || c == '\U{202F}' || c == '\U{205F}'
    || c == '\U{3000}'
  }

  /** `s.trimEnd()`: the longest prefix that does not end in whitespace. */
  function TrimEnd(s: string): (r: string)
    ensures r <= s
  {
    if s != [] && IsWhitespace(s[|s| - 1]) then TrimEnd(s[..|s| - 1]) else s
  }

  /** The longest suffix that does not start with whitespace. */
  function TrimStart(s: string): (r: string)
    ensures |r| <= |s| && r == s[|s| - |r|..]
  {
    if s != [] && IsWhitespace(s[0]) then TrimStart(s[1..]) else s
  }

  /** `s.trim()`. */
  function Trim(s: string): string {
    TrimStart(TrimEnd(s))
  }

  /** The length of `s.match(/p/g) || []` for a pattern of plain characters:
      matches are found left to right and do not overlap. */
  function CountMatches(s: string, p: string): nat
    requires p != []
    decreases |s|
  {
    if |s| < |p| then 0
    else if s[..|p|] == p then 1 + CountMatches(s[|p|..], p)
    else CountMatches(s[1..], p)
  }

  /** Like CountMatches, but a match of `p` that begins a match of `q` is not
      counted (the regular expression `p(?!rest)` where `q == p + rest`). */
  function CountMatchesNotStarting(s: string, p: string, q: string): nat
    requires p != []
    decreases |s|
  {
    if |s| < |p| then 0
    else if s[..|p|] == p then
      (if MatchAt(s, q, 0) then 0 else 1) + CountMatchesNotStarting(s[|p|..], p, q)
    else CountMatchesNotStarting(s[1..], p, q)
  }

  // ---------------------------------------------------------------------
  // Occurrences in a concatenation whose left part ends a line

  /** `X` is empty or ends with a line terminator. */
  predicate EndsLine(x: string) {
    x == [] || x[|x| - 1] == '\n'
  }

  /** A slice of the right part of a concatenation. */
  lemma IndexOfAtStart(t: string, p: string)
    requires p <= t
    ensures IndexOf(t, p) == 0
  {
    assert t[0..|p|] == p;
  }

  lemma SliceOfConcat(x: string, y: string, a: nat, b: nat)
    requires a <= b <= |y|
    ensures (x + y)[|x| + a..|x| + b] == y[a..b]
  {
  }

  /** The middle part of a concatenation. */
  lemma MiddleOfConcat(x: string, y: string, z: string)
    ensures (x + (y + z))[|x|..|x| + |y|] == y
  {
    assert (x + (y + z))[|x|..] == y + z;
  }

  /** Two strings with a common prefix agree on every slice of it. */
  lemma SlicesAgree(s: string, t: string, k: nat)
    requires k <= |s| && k <= |t| && s[..k] == t[..k]
    ensures forall a, b :: 0 <= a <= b <= k ==> s[a..b] == t[a..b]
  {
    forall a, b | 0 <= a <= b <= k
      ensures s[a..b] == t[a..b]
    {
      assert s[a..b] == s[..k][a..b];
      assert t[a..b] == t[..k][a..b];
    }
  }

  /** A match covers the characters of the string under it. */
  lemma MatchCovers(s: string, p: string, j: int, k: int)
    requires MatchAt(s, p, j) && j <= k < j + |p|
    ensures s[k] == p[k - j] && s[k] in p
  {
    assert s[j..j + |p|][k - j] == s[k];
  }

  /** A line terminator at or after a match of a single-line `p` lies after it. */
  lemma NewlineAfterMatch(s: string, p: string, i: int, r: int)
    requires MatchAt(s, p, i) && '\n' !in p && i <= r && MatchAt(s, "\n", r)
    ensures i + |p| <= r
  {
    assert s[r] == '\n' by { assert s[r..r + 1][0] == s[r]; }
    forall k | i <= k < i + |p|
      ensures s[k] != '\n'
    {
      MatchCovers(s, p, i, k);
    }
  }

  /** A pattern without a newline cannot straddle the end of a line: its
      matches in `X + Y` are its matches in `X` and its matches in `Y`. */
  lemma MatchesInConcat(x: string, y: string, p: string)
    requires EndsLine(x) && '\n' !in p
    ensures forall j :: 0 <= j < |x| ==> (MatchAt(x + y, p, j) <==> MatchAt(x, p, j))
    ensures forall j :: |x| <= j ==> (MatchAt(x + y, p, j) <==> MatchAt(y, p, j - |x|))
  {
    var s := x + y;
    forall j | 0 <= j < |x|
      ensures MatchAt(s, p, j) <==> MatchAt(x, p, j)
    {
      if j + |p| <= |x| {
        assert s[j..j + |p|] == x[j..j + |p|];
      } else {
        assert s[|x| - 1] == '\n';
        assert MatchAt(s, p, j) ==> '\n' in p by {
          if MatchAt(s, p, j) {
            MatchCovers(s, p, j, |x| - 1);
          }
        }
      }
    }
    MatchesInRight(x, y, p);
  }

  /** The matches in `X + Y` at or after `|X|` are the matches in `Y`. */
  lemma MatchesInRight(x: string, y: string, p: string)
    ensures forall j :: |x| <= j ==> (MatchAt(x + y, p, j) <==> MatchAt(y, p, j - |x|))
  {
    var s := x + y;
    forall j | |x| <= j
      ensures MatchAt(s, p, j) <==> MatchAt(y, p, j - |x|)
    {
      if j + |p| <= |s| {
        assert s[j..j + |p|] == y[j - |x|..j - |x| + |p|];
      }
    }
  }

  /** Matches at or after `|X|` in `X + Y` are matches in `Y`, shifted. */
  lemma IndexOfFromShift(x: string, y: string, p: string, from: nat)
    requires |x| <= from <= |x| + |y|
    ensures IndexOfFrom(x + y, p, from) ==
      if IndexOfFrom(y, p, from - |x|) == -1 then -1 else |x| + IndexOfFrom(y, p, from - |x|)
  {
    var s := x + y;
    MatchesInRight(x, y, p);
    var r := IndexOfFrom(s, p, from);
    var q := IndexOfFrom(y, p, from - |x|);
    IndexOfFromFirst(s, p, from);
    IndexOfFromFirst(y, p, from - |x|);
    assert q != -1 ==> MatchAt(s, p, |x| + q);
    assert r != -1 ==> MatchAt(y, p, r - |x|);
  }

  /** The first line terminator of `X + "\n" + Y`, for a single-line `X`. */
  lemma FirstNewline(x: string, y: string)
    requires '\n' !in x
    ensures IndexOfFrom(x + "\n" + y, "\n", 0) == |x|
  {
    var t := x + "\n" + y;
    forall j | 0 <= j < |x|
      ensures !MatchAt(t, "\n", j)
    {
      assert t[j] == x[j] != '\n';
      assert t[j..j + 1] == [t[j]];
    }
    assert MatchAt(t, "\n", |x|) by { assert t[|x|..|x| + 1] == "\n"; }
    IndexOfFromFirst(t, "\n", 0);
  }

  /** When `X` ends a line and holds no match, the first match in `X + Y` is
      the first match in `Y`, shifted by `|X|`. */
  lemma IndexOfConcat(x: string, y: string, p: string)
    requires EndsLine(x) && '\n' !in p && !Contains(x, p)
    ensures IndexOf(x + y, p) == if IndexOf(y, p) == -1 then -1 else |x| + IndexOf(y, p)
  {
    var s := x + y;
    MatchesInConcat(x, y, p);
    forall j | 0 <= j < |x|
      ensures !MatchAt(s, p, j)
    {
      assert !MatchAt(x, p, j);
    }
    IndexOfFromSkip(s, p, 0, |x|);
    IndexOfFromShift(x, y, p, |x|);
  }

  /** A search that starts before a stretch free of matches finds what a
      search from its end finds. */
  lemma {:induction false} IndexOfFromSkip(s: string, p: string, from: nat, k: nat)
    requires from <= k <= |s|
    requires forall j :: from <= j < k ==> !MatchAt(s, p, j)
    ensures IndexOfFrom(s, p, from) == IndexOfFrom(s, p, k)
    decreases k - from
  {
    if from < k {
      assert !MatchAt(s, p, from);
      IndexOfFromSkip(s, p, from + 1, k);
    }
  }

  /** The first match is decided by the prefix that contains it. */
  lemma IndexOfFromPrefix(s: string, t: string, p: string, from: nat, k: nat)
    requires from <= k <= |s| && k <= |t| && s[..k] == t[..k]
    requires IndexOfFrom(s, p, from) != -1 && IndexOfFrom(s, p, from) + |p| <= k
    ensures IndexOfFrom(t, p, from) == IndexOfFrom(s, p, from)
  {
    SlicesAgree(s, t, k);
    var r := IndexOfFrom(s, p, from);
    IndexOfFromFirst(s, p, from);
    assert MatchAt(t, p, r);
    var r' := IndexOfFrom(t, p, from);
    IndexOfFromFirst(t, p, from);
    assert from <= r' < r ==> MatchAt(s, p, r');
  }

  /** Appending a newline creates no match of a pattern without one. */
  lemma NoMatchThroughNewline(x: string, p: string)
    requires !Contains(x, p) && '\n' !in p
    ensures !Contains(x + "\n", p)
  {
    var s := x + "\n";
    assert p == [] ==> MatchAt(x, p, 0);
    forall i | 0 <= i <= |s|
      ensures !MatchAt(s, p, i)
    {
      if i + |p| <= |x| {
        assert s[i..i + |p|] == x[i..i + |p|];
        assert !MatchAt(x, p, i);
      } else {
        assert MatchAt(s, p, i) ==> '\n' in p by {
          if MatchAt(s, p, i) {
            MatchCovers(s, p, i, |x|);
          }
        }
      }
    }
  }

  /** A string without `p` holds no match of any pattern that starts with `p`. */
  lemma NoMatchOfExtension(s: string, p: string, q: string)
    requires !Contains(s, p) && p <= q
    ensures !Contains(s, q)
  {
    forall i | 0 <= i <= |s|
      ensures !MatchAt(s, q, i)
    {
      assert MatchAt(s, q, i) ==> MatchAt(s, p, i) by {
        if MatchAt(s, q, i) {
          assert s[i..i + |p|] == s[i..i + |q|][..|p|];
        }
      }
    }
  }

  /** A substring of `s` holds only matches that `s` holds. */
  lemma NoMatchInSlice(s: string, p: string, a: nat, b: nat)
    requires a <= b <= |s| && !Contains(s, p)
    ensures !Contains(s[a..b], p)
  {
    var t := s[a..b];
    forall i | 0 <= i <= |t|
      ensures !MatchAt(t, p, i)
    {
      if i + |p| <= |t| {
        assert forall k :: i <= k < i + |p| ==> t[k] == s[a + k];
        assert t[i..i + |p|] == s[a + i..a + i + |p|];
        assert !MatchAt(s, p, a + i);
      }
    }
  }

  lemma NoMatchInTrim(s: string, p: string)
    requires !Contains(s, p)
    ensures !Contains(Trim(s), p)
  {
    var e := TrimEnd(s);
    assert s[0..|e|] == e;
    NoMatchInSlice(s, p, 0, |e|);
    var t := TrimStart(e);
    NoMatchInSlice(e, p, |e| - |t|, |e|);
    assert e[|e| - |t|..|e|] == t;
  }

  /** A trailing newline is trimmed away. */
  lemma TrimNewline(s: string)
    ensures Trim(s + "\n") == Trim(s)
  {
    assert (s + "\n")[..|s + "\n"| - 1] == s;
  }

  /** Trimming keeps a leading word that neither starts nor ends with
      whitespace. */
  lemma TrimKeepsLeadingWord(s: string, w: string)
    requires w <= s && w != [] && !IsWhitespace(w[0]) && !IsWhitespace(w[|w| - 1])
    ensures w <= Trim(s)
  {
    var e := TrimEnd(s);
    assert s[|w| - 1] == w[|w| - 1];
    TrimEndKeeps(s, |w| - 1);
    assert e[..|w|] == s[..|w|] == w;
    assert TrimStart(e) == e;
  }

  /** `trimEnd` stops at the last character that is not whitespace. */
  lemma {:induction false} TrimEndKeeps(s: string, k: nat)
    requires k < |s| && !IsWhitespace(s[k])
    ensures k < |TrimEnd(s)|
    decreases |s|
  {
    if k < |s| - 1 {
      assert s[..|s| - 1][k] == s[k];
      TrimEndKeeps(s[..|s| - 1], k);
    }
  }

  // ---------------------------------------------------------------------
  // Counting in a concatenation whose left part ends a line

  /** A pattern without a newline does not match at the start of `X + Y`
      when `X` is a shorter, non-empty line end. */
  lemma NoMatchAcrossShortLine(x: string, y: string, p: string)
    requires x != [] && EndsLine(x) && |x| < |p| && '\n' !in p
    ensures !MatchAt(x + y, p, 0)
  {
    MatchesInConcat(x, y, p);
  }

  lemma CountMatchesConcat(x: string, y: string, p: string)
    requires p != [] && '\n' !in p && EndsLine(x)
    ensures CountMatches(x + y, p) == CountMatches(x, p) + CountMatches(y, p)
    decreases |x|
  {
    var s := x + y;
    if x == [] {
      assert s == y;
    } else if |x| < |p| {
      NoMatchAcrossShortLine(x, y, p);
      assert |s| >= |p| ==> s[..|p|] != p;
      assert s[1..] == x[1..] + y;
      CountMatchesConcat(x[1..], y, p);
    } else {
      assert s[..|p|] == x[..|p|];
      if x[..|p|] == p {
        assert s[|p|..] == x[|p|..] + y;
        CountMatchesConcat(x[|p|..], y, p);
      } else {
        assert s[1..] == x[1..] + y;
        CountMatchesConcat(x[1..], y, p);
      }
    }
  }

  lemma CountMatchesNotStartingConcat(x: string, y: string, p: string, q: string)
    requires p != [] && '\n' !in p && '\n' !in q && EndsLine(x)
    ensures CountMatchesNotStarting(x + y, p, q)
         == CountMatchesNotStarting(x, p, q) + CountMatchesNotStarting(y, p, q)
    decreases |x|
  {
    var s := x + y;
    if x == [] {
      assert s == y;
    } else if |x| < |p| {
      NoMatchAcrossShortLine(x, y, p);
      assert |s| >= |p| ==> s[..|p|] != p;
      assert s[1..] == x[1..] + y;
      CountMatchesNotStartingConcat(x[1..], y, p, q);
    } else {
      assert s[..|p|] == x[..|p|];
      if x[..|p|] == p {
        MatchesInConcat(x, y, q);
        assert s[|p|..] == x[|p|..] + y;
        CountMatchesNotStartingConcat(x[|p|..], y, p, q);
      } else {
        assert s[1..] == x[1..] + y;
        CountMatchesNotStartingConcat(x[1..], y, p, q);
      }
    }
  }

  /** Without an occurrence there is nothing to count. */
  lemma NoMatchCountsZero(s: string, p: string, q: string)
    requires p != [] && !Contains(s, p)
    ensures CountMatches(s, p) == 0 && CountMatchesNotStarting(s, p, q) == 0
    decreases |s|
  {
    if |s| >= |p| {
      assert !MatchAt(s, p, 0);
      NoMatchInSlice(s, p, 1, |s|);
      assert s[1..|s|] == s[1..];
      NoMatchCountsZero(s[1..], p, q);
    }
  }
}
