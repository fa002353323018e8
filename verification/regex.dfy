/** String.split for the handful of regular expressions the core passes to it.

    Matching is stated on positions of one string: `MatchEnd(p, s, k)` is the
    end of the match of `p` that starts at position `k` of `s`, and Matcher.find
    from `k` is the leftmost such position at or after `k`. Quantifiers in the
    patterns are greedy; because the character each `\s` run must be followed
    by is never itself in `\s`, backtracking never finds a different match, so
    one greedy pass decides each position. */
module Regex {
  import opened Results
  import opened Text

  datatype Pattern =
    | Spaces                  // \s+
    | Pipe                    // \s*\|\s*
    | Literal(text: string)   // a pattern without metacharacters, such as "-"
    | Keyword(word: string)   // \s+word\s+ for a word that starts and ends outside \s, such as "/by"

  /** The end of the run of `\s` characters that starts at position `k`. */
  function SpaceEnd(s: string, k: nat): (e: nat)
    requires k <= |s|
    ensures k <= e <= |s|
    ensures e == |s| || !IsRegexSpace(s[e])
    decreases |s| - k
  {
    if k < |s| && IsRegexSpace(s[k]) then SpaceEnd(s, k + 1) else k
  }

  /** Everything the run covers is `\s`. */
  lemma {:induction false} SpaceEndRun(s: string, k: nat)
    requires k <= |s|
    ensures forall i :: k <= i < SpaceEnd(s, k) ==> IsRegexSpace(s[i])
    decreases |s| - k
  {
    if k < |s| && IsRegexSpace(s[k]) {
      SpaceEndRun(s, k + 1);
    }
  }

  /** A `\s` run is determined by where it stops. */
  lemma SpaceEndIs(s: string, k: nat, e: nat)
    requires k <= e <= |s|
    requires forall i :: k <= i < e ==> IsRegexSpace(s[i])
    requires e == |s| || !IsRegexSpace(s[e])
    ensures SpaceEnd(s, k) == e
  {
    SpaceEndRun(s, k);
  }

  /** `t` occurs in `s` at position `k`. */
  predicate OccursAt(s: string, k: nat, t: string) {
    k + |t| <= |s| && s[k..k + |t|] == t
  }

  /** `t` occurs somewhere in `s`. */
  predicate Occurs(s: string, t: string) {
    exists k :: 0 <= k <= |s| && OccursAt(s, k, t)
  }

  /** The end of the greedy match of `p` starting at position `k`, if any. */
  function MatchEnd(p: Pattern, s: string, k: nat): (r: Option<nat>)
    requires k <= |s|
    ensures r.Some? ==> k < r.value <= |s|
  {
    match p
    case Spaces =>
      var e := SpaceEnd(s, k);
      if e > k then Some(e) else None
    case Pipe =>
      var e := SpaceEnd(s, k);
      if e < |s| && s[e] == '|' then Some(SpaceEnd(s, e + 1)) else None
    case Literal(t) =>
      if |t| > 0 && OccursAt(s, k, t) then Some(k + |t|) else None
    case Keyword(w) =>
      var e := SpaceEnd(s, k);
      if e > k && |w| > 0 && OccursAt(s, e, w) && SpaceEnd(s, e + |w|) > e + |w|
      then Some(SpaceEnd(s, e + |w|))
      else None
  }

  /** Matcher.find from position `k`: the first position at or after `k`
      where `p` matches, with the end of that match, as (start, end). */
  function FindFrom(p: Pattern, s: string, k: nat): (r: Option<(nat, nat)>)
    requires k <= |s|
    ensures r.Some? ==> k <= r.value.0 <= |s| && MatchEnd(p, s, r.value.0) == Some(r.value.1)
    decreases |s| - k
  {
    match MatchEnd(p, s, k)
    case Some(e) => Some((k, e))
    case None => if k == |s| then None else FindFrom(p, s, k + 1)
  }

  /** The match FindFrom reports is the leftmost one, and when it reports
      none the pattern matches nowhere from `k` on. */
  lemma {:induction false} FindFromLeftmost(p: Pattern, s: string, k: nat)
    requires k <= |s|
    ensures FindFrom(p, s, k).Some? ==>
              forall j {:trigger MatchEnd(p, s, j)} :: k <= j < FindFrom(p, s, k).value.0 ==> MatchEnd(p, s, j).None?
    ensures FindFrom(p, s, k).None? ==>
              forall j {:trigger MatchEnd(p, s, j)} :: k <= j <= |s| ==> MatchEnd(p, s, j).None?
    decreases |s| - k
  {
    if MatchEnd(p, s, k).None? && k < |s| {
      FindFromLeftmost(p, s, k + 1);
    }
  }

  /** Conversely, a match with no match before it is the one FindFrom reports. */
  lemma {:induction false} FindFromAt(p: Pattern, s: string, k: nat, j: nat)
    requires k <= j <= |s|
    requires forall i {:trigger MatchEnd(p, s, i)} :: k <= i < j ==> MatchEnd(p, s, i).None?
    requires MatchEnd(p, s, j).Some?
    ensures FindFrom(p, s, k) == Some((j, MatchEnd(p, s, j).value))
    decreases j - k
  {
    if k < j {
      FindFromAt(p, s, k + 1, j);
    }
  }

  /** And a pattern that matches nowhere from `k` on is not found. */
  lemma {:induction false} FindFromNone(p: Pattern, s: string, k: nat)
    requires k <= |s|
    requires forall i {:trigger MatchEnd(p, s, i)} :: k <= i <= |s| ==> MatchEnd(p, s, i).None?
    ensures FindFrom(p, s, k).None?
    decreases |s| - k
  {
    if k < |s| {
      FindFromNone(p, s, k + 1);
    }
  }

  /** `s.split(p, 2)`: cut at the leftmost match, or the whole string when
      there is none. */
  function SplitOnce(p: Pattern, s: string): (parts: seq<string>)
    ensures 1 <= |parts| <= 2
    ensures |parts| == 1 <==> FindFrom(p, s, 0).None?
    ensures |parts| == 1 ==> parts[0] == s
    ensures |parts| == 2 ==>
              && |parts[0]| + |parts[1]| < |s|
              && s[..|parts[0]|] == parts[0]
              && s[|s| - |parts[1]|..] == parts[1]
              && MatchEnd(p, s, |parts[0]|) == Some(|s| - |parts[1]|)
              && forall j :: 0 <= j < |parts[0]| ==> MatchEnd(p, s, j).None?
  {
    FindFromLeftmost(p, s, 0);
    match FindFrom(p, s, 0)
    case Some(m) => [s[..m.0], s[m.1..]]
    case None => [s]
  }

  /** The pieces of `s` from position `k` between successive leftmost
      matches, before String.split drops trailing empty pieces. */
  function Pieces(p: Pattern, s: string, k: nat): (r: seq<string>)
    requires k <= |s|
    ensures |r| >= 1
    ensures |r| == 1 <==> FindFrom(p, s, k).None?
    ensures |r| == 1 ==> r[0] == s[k..]
    decreases |s| - k
  {
    match FindFrom(p, s, k)
    case Some(m) => [s[k..m.0]] + Pieces(p, s, m.1)
    case None => [s[k..]]
  }

  /** The list without its trailing empty strings. */
  function DropTrailingEmpty(xs: seq<string>): (r: seq<string>)
    ensures |r| <= |xs| && r == xs[..|r|]
    ensures r == [] || r[|r| - 1] != ""
    ensures forall i :: |r| <= i < |xs| ==> xs[i] == ""
  {
    if xs != [] && xs[|xs| - 1] == "" then DropTrailingEmpty(xs[..|xs| - 1]) else xs
  }

  /** `s.split(p)` (limit zero): the pieces without trailing empty strings,
      except that a string with no match at all comes back whole. */
  function SplitAll(p: Pattern, s: string): (r: seq<string>)
    ensures FindFrom(p, s, 0).None? ==> r == [s]
    ensures FindFrom(p, s, 0).Some? ==> r == DropTrailingEmpty(Pieces(p, s, 0))
  {
    if FindFrom(p, s, 0).None? then [s] else DropTrailingEmpty(Pieces(p, s, 0))
  }

  /** Dropping trailing empty strings never reaches into a prefix that ends
      with a non-empty string. */
  lemma {:induction false} DropTrailingEmptyKeeps(a: seq<string>, b: seq<string>)
    requires a != [] && a[|a| - 1] != ""
    ensures |DropTrailingEmpty(a + b)| >= |a|
    ensures DropTrailingEmpty(a + b)[..|a|] == a
  {
    if b == [] {
      assert a + b == a;
    } else if b[|b| - 1] == "" {
      assert (a + b)[..|a + b| - 1] == a + b[..|b| - 1];
      DropTrailingEmptyKeeps(a, b[..|b| - 1]);
    }
  }

  // ---------------------------------------------------------------------
  // Splitting at a known separator

  /** A string of `\s` characters only. */
  predicate AllSpaces(w: string) {
    forall i :: 0 <= i < |w| ==> IsRegexSpace(w[i])
  }

  predicate NoRegexSpace(s: string) {
    forall i :: 0 <= i < |s| ==> !IsRegexSpace(s[i])
  }

  /** A word followed by a run of `\s` splits into the word and what follows the run. */
  lemma SplitOnceSpaces(word: string, w: string, rest: string)
    requires NoRegexSpace(word) && w != [] && AllSpaces(w)
    requires rest == [] || !IsRegexSpace(rest[0])
    ensures SplitOnce(Spaces, word + w + rest) == [word, rest]
  {
    var s := word + w + rest;
    forall i | 0 <= i < |word|
      ensures MatchEnd(Spaces, s, i).None?
    {
      assert s[i] == word[i];
    }
    SpaceEndIs(s, |word|, |word| + |w|);
    FindFromAt(Spaces, s, 0, |word|);
    assert s[..|word|] == word;
    assert s[|word| + |w|..] == rest;
  }

  /** A string without `\s` does not split at `\s+`. */
  lemma SplitOnceNoSpaces(s: string)
    requires NoRegexSpace(s)
    ensures SplitOnce(Spaces, s) == [s]
  {
    forall i | 0 <= i <= |s|
      ensures MatchEnd(Spaces, s, i).None?
    {
    }
    FindFromNone(Spaces, s, 0);
  }

  /** A string does not occur where its first character does not. */
  lemma NotOccursAt(s: string, e: nat, t: string)
    requires e < |s| && t != [] && s[e] != t[0]
    ensures !OccursAt(s, e, t)
  {
    if e + |t| <= |s| {
      assert s[e..e + |t|][0] == s[e];
    }
  }

  /** No `\s+word\s+` match starts anywhere in `s`. */
  predicate KeywordFree(s: string, word: string) {
    forall k :: 0 <= k <= |s| ==> MatchEnd(Keyword(word), s, k).None?
  }

  /** Text before a keyword splits off at the keyword when the keyword does not
      occur in it and it does not end in `\s`. */
  lemma SplitOnceKeyword(d: string, w1: string, word: string, w2: string, rest: string)
    requires d != [] && !IsRegexSpace(d[|d| - 1])
    requires word != [] && NoRegexSpace(word) && !Occurs(d, word)
    requires w1 != [] && AllSpaces(w1) && w2 != [] && AllSpaces(w2)
    requires rest == [] || !IsRegexSpace(rest[0])
    ensures SplitOnce(Keyword(word), d + w1 + word + w2 + rest) == [d, rest]
  {
    var s := d + w1 + word + w2 + rest;
    var p := Keyword(word);
    var i1: nat := |d|;
    var j: nat := i1 + |w1|;
    var k: nat := j + |word|;
    var e2: nat := k + |w2|;
    Concat5(d, w1, word, w2, rest, i1, j, k, e2);
    forall i | 0 <= i < i1
      ensures MatchEnd(p, s, i).None?
    {
      NoKeywordBefore(s, d, word, i);
    }
    assert s[j] == s[j..k][0] == word[0];
    SpaceEndIs(s, i1, j);
    SpaceEndIs(s, k, e2);
    assert MatchEnd(p, s, i1) == Some(e2);
    FindFromAt(p, s, 0, i1);
  }

  /** No keyword match starts inside `d` when `d` is followed by `\s`, ends
      outside `\s` and does not contain the keyword. */
  lemma NoKeywordBefore(s: string, d: string, word: string, i: nat)
    requires i < |d| < |s| && s[..|d|] == d && IsRegexSpace(s[|d|])
    requires !IsRegexSpace(d[|d| - 1])
    requires word != [] && NoRegexSpace(word) && !Occurs(d, word)
    ensures MatchEnd(Keyword(word), s, i).None?
  {
    var n := |d|;
    var e := SpaceEnd(s, i);
    SpaceEndRun(s, i);
    assert s[n - 1] == s[..n][n - 1];
    assert e < n;
    if e + |word| <= n {
      assert !OccursAt(d, e, word);
      assert s[e..e + |word|] != word by {
        var j :| 0 <= j < |word| && d[e + j] != word[j];
        assert s[e..e + |word|][j] == s[e + j] == d[e + j];
      }
    } else if e + |word| <= |s| {
      assert s[e..e + |word|][n - e] == s[n];
      assert !IsRegexSpace(word[n - e]);
    }
  }

  /** Text with no keyword match does not split at the keyword. */
  lemma SplitOnceKeywordAbsent(s: string, word: string)
    requires KeywordFree(s, word)
    ensures SplitOnce(Keyword(word), s) == [s]
  {
    FindFromNone(Keyword(word), s, 0);
  }

  /** Text the keyword does not occur in has no keyword match. */
  lemma AbsentKeywordFree(s: string, word: string)
    requires word != [] && !Occurs(s, word)
    ensures KeywordFree(s, word)
  {
    forall k | 0 <= k <= |s|
      ensures MatchEnd(Keyword(word), s, k).None?
    {
      var e := SpaceEnd(s, k);
      assert !OccursAt(s, e, word);
    }
  }

  /** A literal splits the text at its first occurrence. */
  lemma SplitOnceLiteral(a: string, t: string, b: string)
    requires t != []
    requires forall i :: 0 <= i < |a| ==> !OccursAt(a + t + b, i, t)
    ensures SplitOnce(Literal(t), a + t + b) == [a, b]
  {
    var s := a + t + b;
    var n: nat := |a|;
    var e: nat := n + |t|;
    assert s[n..e] == t;
    FindFromAt(Literal(t), s, 0, n);
    assert s[..n] == a;
    assert s[e..] == b;
  }

  // ---------------------------------------------------------------------
  // Splitting pipe-separated fields

  /** A field that comes back unchanged from a pipe split: no pipe in it, and
      no `\s` at either end for the separators to swallow. */
  predicate FieldSafe(f: string) {
    '|' !in f && (f == [] || (!IsRegexSpace(f[0]) && !IsRegexSpace(f[|f| - 1])))
  }

  /** Without a pipe there is nothing to split at. */
  lemma {:induction false} NoPipeNotFound(s: string, k: nat)
    requires k <= |s|
    requires forall i :: k <= i < |s| ==> s[i] != '|'
    ensures FindFrom(Pipe, s, k).None?
    decreases |s| - k
  {
    if k < |s| {
      NoPipeNotFound(s, k + 1);
    }
  }

  /** The first pipe match from the start of a field followed by " | " is
      that separator, together with any `\s` behind it at `n`. */
  lemma FindPipeAfterField(s: string, k: nat, f: string, n: nat)
    requires f != [] && FieldSafe(f)
    requires n == k + |f| + 3 <= |s| && s[k..n] == f + " | "
    ensures FindFrom(Pipe, s, k) == Some((k + |f|, SpaceEnd(s, n)))
  {
    var g := f + " | ";
    var e0: nat := k + |f|;
    assert forall i :: 0 <= i < |f| + 3 ==> s[k + i] == g[i] by {
      forall i | 0 <= i < |f| + 3
        ensures s[k + i] == g[i]
      {
        assert s[k..n][i] == s[k + i];
      }
    }
    forall i | k <= i < e0
      ensures MatchEnd(Pipe, s, i).None?
    {
      var e := SpaceEnd(s, i);
      SpaceEndRun(s, i);
      assert s[e0 - 1] == g[|f| - 1] == f[|f| - 1];
      assert e < e0;
      assert s[e] == g[e - k] == f[e - k];
    }
    assert s[e0] == ' ' && s[e0 + 1] == '|' && s[e0 + 2] == ' ';
    SpaceEndIs(s, e0, e0 + 1);
    assert SpaceEnd(s, e0 + 2) == SpaceEnd(s, n);
    FindFromAt(Pipe, s, k, e0);
  }

  /** The piece in front of that separator is the field. */
  lemma PiecesAfterField(s: string, k: nat, f: string, n: nat)
    requires f != [] && FieldSafe(f)
    requires n == k + |f| + 3 <= |s| && s[k..n] == f + " | "
    ensures Pieces(Pipe, s, k) == [f] + Pieces(Pipe, s, SpaceEnd(s, n))
  {
    FindPipeAfterField(s, k, f, n);
    assert s[k..k + |f|] == s[k..n][..|f|];
  }

  /** A tail without a pipe is a single piece. */
  lemma PiecesNoPipe(s: string, k: nat)
    requires k <= |s| && '|' !in s[k..]
    ensures Pieces(Pipe, s, k) == [s[k..]]
  {
    forall i | k <= i < |s|
      ensures s[i] != '|'
    {
      assert s[i] == s[k..][i - k];
    }
    NoPipeNotFound(s, k);
  }

  /** Splitting a " | "-joined tail of `s` at pipes gives back, in order, each
      leading field that is safe and non-empty; when all are, exactly the fields. */
  lemma {:induction false} PiecesOfJoinAt(s: string, k: nat, fs: seq<string>, m: nat)
    requires k <= |s| && s[k..] == Join(fs, " | ")
    requires 0 < m <= |fs|
    requires forall i :: 0 <= i < m ==> fs[i] != [] && FieldSafe(fs[i])
    ensures m <= |Pieces(Pipe, s, k)|
    ensures Pieces(Pipe, s, k)[..m] == fs[..m]
    ensures m == |fs| ==> Pieces(Pipe, s, k) == fs
    decreases |fs|
  {
    var f := fs[0];
    if |fs| == 1 {
      PiecesNoPipe(s, k);
      assert fs == [f];
    } else {
      var tail := fs[1..];
      var rest := Join(tail, " | ");
      var n: nat := k + |f| + 3;
      var m1: nat := m - 1;
      JoinCons(fs, " | ");
      SuffixSplit(s, k, f + " | ", rest);
      PiecesAfterField(s, k, f, n);
      var ps2 := Pieces(Pipe, s, SpaceEnd(s, n));
      if m1 > 0 {
        JoinFirst(tail, " | ");
        assert s[n] == s[n..][0];
        SpaceEndIs(s, n, n);
        PiecesOfJoinAt(s, n, tail, m1);
      }
      PrefixCons(f, ps2, fs, m);
    }
  }

  /** Splitting a " | "-joined line at pipes gives back its leading safe,
      non-empty fields. */
  lemma PiecesOfJoin(fs: seq<string>, m: nat)
    requires 0 < m <= |fs|
    requires forall i :: 0 <= i < m ==> fs[i] != [] && FieldSafe(fs[i])
    ensures var ps := Pieces(Pipe, Join(fs, " | "), 0);
            m <= |ps| && ps[..m] == fs[..m] && (m == |fs| ==> ps == fs)
  {
    var s := Join(fs, " | ");
    assert s[0..] == s;
    PiecesOfJoinAt(s, 0, fs, m);
  }
}
