/** The pieces of java.lang.String and java.lang.Integer behaviour the core
    relies on, over strings of UTF-16 code units (`char`). */
module Text {
  import opened Results

  // ---------------------------------------------------------------------
  // Character classes

  /** The code units String.trim() strips: everything up to U+0020. */
  predicate IsTrimmable(c: char) {
    c <= ' '
  }

  /** The regex class `\s` of java.util.regex (no UNICODE_CHARACTER_CLASS):
      space, tab, newline, vertical tab, form feed, carriage return. */
  predicate IsRegexSpace(c: char) {
    c == ' ' || c == '\t' || c == '\n' || c == '\U{000B}' || c == '\U{000C}' || c == '\r'
  }

  /** Character.isWhitespace, which String.isBlank uses: the ASCII controls
      U+0009..U+000D and U+001C..U+001F, and the Unicode space, line and
      paragraph separators other than the no-break spaces. */
  predicate IsJavaWhitespace(c: char) {
    || ('\t' <= c <= '\r')
    || ('\U{001C}' <= c <= ' ')
    || c == '\U{1680}'
    || ('\U{2000}' <= c <= '\U{2006}')
    || ('\U{2008}' <= c <= '\U{200A}')
    || c == '\U{2028}' || c == '\U{2029}' || c == '\U{205F}' || c == '\U{3000}'
  }

  lemma RegexSpaceIsTrimmable(c: char)
    ensures IsRegexSpace(c) ==> IsTrimmable(c) && IsJavaWhitespace(c)
  {
  }

  predicate IsDigit(c: char) {
    '0' <= c <= '9'
  }

  predicate AllDigits(s: string) {
    forall i :: 0 <= i < |s| ==> IsDigit(s[i])
  }

  // ---------------------------------------------------------------------
  // Prefixes, blankness and trimming

  predicate StartsWith(s: string, prefix: string) {
    |prefix| <= |s| && s[..|prefix|] == prefix
  }

  /** String.isBlank: empty, or whitespace only. */
  predicate IsBlank(s: string) {
    forall i :: 0 <= i < |s| ==> IsJavaWhitespace(s[i])
  }

  /** A string String.trim() leaves unchanged. */
  predicate IsTrimmed(s: string) {
    s == [] || (!IsTrimmable(s[0]) && !IsTrimmable(s[|s| - 1]))
  }

  predicate AllTrimmable(s: string) {
    forall i :: 0 <= i < |s| ==> IsTrimmable(s[i])
  }

  /** The suffix of `s` left after dropping its leading trimmable units. */
  function StripLeading(s: string): (r: string)
    ensures |r| <= |s|
    ensures AllTrimmable(s[..|s| - |r|])
    ensures r == [] || !IsTrimmable(r[0])
  {
    if |s| > 0 && IsTrimmable(s[0]) then StripLeading(s[1..]) else s
  }

  /** The prefix of `s` left after dropping its trailing trimmable units. */
  function StripTrailing(s: string): (r: string)
    ensures |r| <= |s| && r == s[..|r|]
    ensures AllTrimmable(s[|r|..])
    ensures r == [] || !IsTrimmable(r[|r| - 1])
  {
    if |s| > 0 && IsTrimmable(s[|s| - 1]) then
      var r := StripTrailing(s[..|s| - 1]);
      assert s[|r|..] == s[..|s| - 1][|r|..] + [s[|s| - 1]];
      r
    else s
  }

  /** String.trim(). */
  function Trim(s: string): (r: string)
    ensures IsTrimmed(r)
    ensures |r| <= |s|
    ensures IsTrimmed(s) ==> r == s
  {
    StripTrailing(StripLeading(s))
  }

  /** Leading padding in front of a string that starts untrimmable is what
      StripLeading removes. */
  lemma {:induction false} StripLeadingPadded(pre: string, rest: string)
    requires AllTrimmable(pre) && (rest == [] || !IsTrimmable(rest[0]))
    ensures StripLeading(pre + rest) == rest
    decreases |pre|
  {
    if pre == [] {
      assert pre + rest == rest;
    } else {
      assert (pre + rest)[1..] == pre[1..] + rest;
      StripLeadingPadded(pre[1..], rest);
    }
  }

  /** Trailing padding behind a string that ends untrimmable is what
      StripTrailing removes. */
  lemma {:induction false} StripTrailingPadded(rest: string, post: string)
    requires AllTrimmable(post) && (rest == [] || !IsTrimmable(rest[|rest| - 1]))
    ensures StripTrailing(rest + post) == rest
    decreases |post|
  {
    if post == [] {
      assert rest + post == rest;
    } else {
      var n: nat := |post| - 1;
      assert (rest + post)[..|rest| + n] == rest + post[..n];
      StripTrailingPadded(rest, post[..n]);
    }
  }

  /** Trimming removes exactly the trimmable padding around a trimmed core. */
  lemma TrimPadded(pre: string, core: string, post: string)
    requires AllTrimmable(pre) && AllTrimmable(post) && IsTrimmed(core)
    ensures Trim(pre + core + post) == core
  {
    if core == [] {
      assert pre + core + post == pre + post + [];
      StripLeadingPadded(pre + post, []);
    } else {
      assert pre + core + post == pre + (core + post);
      StripLeadingPadded(pre, core + post);
      StripTrailingPadded(core, post);
    }
  }

  // ---------------------------------------------------------------------
  // Case folding

  /** Character.toLowerCase restricted to the ASCII letters; String.toLowerCase
      agrees with it whenever the result is compared with an ASCII keyword. */
  function LowerAscii(c: char): (r: char)
    ensures 'A' <= c <= 'Z' ==> r != c && 'a' <= r <= 'z'
    ensures !('A' <= c <= 'Z') ==> r == c
  {
    if 'A' <= c <= 'Z' then (c as int + 32) as char else c
  }

  function ToLowerAscii(s: string): (r: string)
    ensures |r| == |s|
    ensures forall i :: 0 <= i < |s| ==> r[i] == LowerAscii(s[i])
  {
    if s == [] then [] else [LowerAscii(s[0])] + ToLowerAscii(s[1..])
  }

  /** The lower-case ASCII letter a code unit equals under String.equalsIgnoreCase,
      which compares the upper- and then the lower-case forms of each unit:
      besides the ASCII capitals, dotted and dotless I, the long s and the
      Kelvin sign fold onto ASCII letters. */
  function FoldIgnoreCase(c: char): char {
    if 'A' <= c <= 'Z' then (c as int + 32) as char
    else if c == '\U{0130}' || c == '\U{0131}' then 'i'
    else if c == '\U{017F}' then 's'
    else if c == '\U{212A}' then 'k'
    else c
  }

  /** `s.equalsIgnoreCase(word)` for a lower-case ASCII `word`. */
  predicate EqualsIgnoreCase(s: string, word: string) {
    |s| == |word| && forall i :: 0 <= i < |s| ==> FoldIgnoreCase(s[i]) == word[i]
  }

  // ---------------------------------------------------------------------
  // Integers

  const INT_MIN: int := -0x8000_0000
  const INT_MAX: int := 0x7FFF_FFFF

  predicate IsInt32(n: int) {
    INT_MIN <= n <= INT_MAX
  }

  function DigitValue(c: char): (d: nat)
    requires IsDigit(c)
    ensures d < 10
  {
    c as int - '0' as int
  }

  function DigitChar(d: nat): (c: char)
    requires d < 10
    ensures IsDigit(c) && DigitValue(c) == d
  {
    ('0' as int + d) as char
  }

  /** The value of a string of decimal digits, most significant first. */
  function DigitsValue(s: string): nat
    requires AllDigits(s)
  {
    if s == [] then 0 else DigitsValue(s[..|s| - 1]) * 10 + DigitValue(s[|s| - 1])
  }

  /** The shortest decimal digits of `n` (Integer.toString of a non-negative int). */
  function NatString(n: nat): (s: string)
    ensures |s| > 0 && AllDigits(s)
    ensures DigitsValue(s) == n
    ensures |s| > 1 ==> s[0] != '0'
  {
    if n < 10 then [DigitChar(n)]
    else
      var front := NatString(n / 10);
      var s := front + [DigitChar(n % 10)];
      assert s[..|s| - 1] == front;
      s
  }

  /** Integer.toString / StringBuilder.append(int). */
  function IntString(n: int): string {
    if n < 0 then "-" + NatString(-n) else NatString(n)
  }

  /** Integer.parseInt(s) in radix 10: an optional sign then one or more ASCII
      digits, whose value must fit in 32 bits; None is a NumberFormatException. */
  function ParseInt(s: string): (r: Option<int>)
    ensures r.Some? ==> IsInt32(r.value)
    ensures r.Some? ==> |s| > 0 && AllDigits(s[1..]) && (IsDigit(s[0]) || s[0] == '-' || s[0] == '+')
    ensures r.Some? && s[0] == '-' ==> r.value <= 0
    ensures r.Some? && s[0] != '-' ==> r.value >= 0
  {
    if |s| == 0 then None
    else
      var signed := s[0] == '-' || s[0] == '+';
      var digits := if signed then s[1..] else s;
      if digits == [] || !AllDigits(digits) then None
      else
        var magnitude: int := DigitsValue(digits);
        var v: int := if s[0] == '-' then -magnitude else magnitude;
        if IsInt32(v) then Some(v) else None
  }

  /** Parsing a rendered 32-bit integer gives it back. */
  lemma ParseIntString(n: int)
    requires IsInt32(n)
    ensures ParseInt(IntString(n)) == Some(n)
  {
    if n < 0 {
      var s := IntString(n);
      assert s[1..] == NatString(-n);
    }
  }

  /** The value of every accepted numeral, such as `007`, `+5` or `-0`:
      with ParseInt's own contract this decides parseInt on every string. */
  lemma ParseIntSigned(sign: string, digits: string)
    requires sign == "" || sign == "+" || sign == "-"
    requires digits != [] && AllDigits(digits)
    ensures var v: int := if sign == "-" then -(DigitsValue(digits) as int) else DigitsValue(digits);
            ParseInt(sign + digits) == (if IsInt32(v) then Some(v) else None)
  {
    var s := sign + digits;
    if sign == "" {
      assert s == digits;
    } else {
      assert s[0] == sign[0] && s[1..] == digits;
    }
  }

  /** The parts of a string whose suffix from `k` is known to be `a + b`. */
  lemma SuffixSplit(s: string, k: nat, a: string, b: string)
    requires k <= |s| && s[k..] == a + b
    ensures k + |a| <= |s|
    ensures s[k..k + |a|] == a
    ensures s[k + |a|..] == b
  {
    assert s[k..k + |a|] == s[k..][..|a|];
    assert s[k + |a|..] == s[k..][|a|..];
  }

  /** The two halves of a concatenation, cut at `n`. */
  lemma ConcatAt(a: string, b: string, n: nat)
    requires n == |a|
    ensures (a + b)[..n] == a && (a + b)[n..] == b
  {
  }

  /** Where the five parts of `a + b + c + d + e` sit, given their start positions. */
  lemma Concat5(a: string, b: string, c: string, d: string, e: string, i1: nat, i2: nat, i3: nat, i4: nat)
    requires i1 == |a| && i2 == i1 + |b| && i3 == i2 + |c| && i4 == i3 + |d|
    ensures var s := a + b + c + d + e;
            && |s| == i4 + |e|
            && s[..i1] == a && s[i2..i3] == c && s[i4..] == e
            && (forall i :: 0 <= i < i1 ==> s[i] == a[i])
            && (forall i :: i1 <= i < i2 ==> s[i] == b[i - i1])
            && (forall i :: i3 <= i < i4 ==> s[i] == d[i - i3])
            && (i4 < |s| ==> s[i4] == e[0])
  {
    var s := a + b + c + d + e;
    assert s[..i1] == a;
    assert s[i2..i3] == c;
    assert s[i4..] == e;
  }

  /** A string is the concatenation of five consecutive slices of itself,
      the second and fourth of them single characters. */
  lemma Rejoin5(s: string, i1: nat, i3: nat)
    requires i1 < i3 < |s|
    ensures s == s[..i1] + [s[i1]] + s[i1 + 1..i3] + [s[i3]] + s[i3 + 1..]
  {
    var r := s[..i1] + [s[i1]] + s[i1 + 1..i3] + [s[i3]] + s[i3 + 1..];
    assert |r| == |s|;
    forall i | 0 <= i < |s|
      ensures r[i] == s[i]
    {
    }
  }

  /** A list with `x` in front agrees with `fs` on its first `m` elements
      when the rest agrees with the rest of `fs`. */
  lemma PrefixCons<T>(x: T, ps: seq<T>, fs: seq<T>, m: nat)
    requires 0 < m <= |fs| && fs[0] == x
    requires m - 1 <= |ps| && ps[..m - 1] == fs[1..][..m - 1]
    requires m == |fs| ==> ps == fs[1..]
    ensures m <= |[x] + ps| && ([x] + ps)[..m] == fs[..m]
    ensures m == |fs| ==> [x] + ps == fs
  {
    assert ([x] + ps)[..m] == [x] + ps[..m - 1];
    assert fs[..m] == [x] + fs[1..][..m - 1];
  }

  // ---------------------------------------------------------------------
  // Joining

  /** String.join(sep, xs). */
  function Join(xs: seq<string>, sep: string): string
  {
    if |xs| == 0 then ""
    else if |xs| == 1 then xs[0]
    else xs[0] + sep + Join(xs[1..], sep)
  }

  /** A join of two or more strings starts with the first and its separator. */
  lemma JoinCons(xs: seq<string>, sep: string)
    requires |xs| >= 2
    ensures Join(xs, sep) == xs[0] + sep + Join(xs[1..], sep)
  {
  }

  /** A join starts with the first string's first character. */
  lemma JoinFirst(xs: seq<string>, sep: string)
    requires |xs| >= 1 && xs[0] != []
    ensures Join(xs, sep) != [] && Join(xs, sep)[0] == xs[0][0]
  {
  }

  /** Appending one more element extends the join by one separator and the element. */
  lemma {:induction false} JoinSnoc(xs: seq<string>, x: string, sep: string)
    ensures Join(xs + [x], sep) == if xs == [] then x else Join(xs, sep) + sep + x
  {
    if |xs| <= 1 {
      if |xs| == 1 {
        assert (xs + [x])[1..] == [x];
      }
    } else {
      assert (xs + [x])[1..] == xs[1..] + [x];
      JoinSnoc(xs[1..], x, sep);
    }
  }

  /** The join of three strings. */
  lemma Join3(a: string, b: string, c: string, sep: string)
    ensures Join([a, b, c], sep) == a + sep + b + sep + c
  {
    assert [a, b, c] == [a, b] + [c];
    assert [a, b] == [a] + [b];
    JoinSnoc([a], b, sep);
    JoinSnoc([a, b], c, sep);
  }

  /** The join of four strings. */
  lemma Join4(a: string, b: string, c: string, d: string, sep: string)
    ensures Join([a, b, c, d], sep) == a + sep + b + sep + c + sep + d
  {
    assert [a, b, c, d] == [a, b, c] + [d];
    assert [a, b, c] == [a, b] + [c];
    assert [a, b] == [a] + [b];
    JoinSnoc([a], b, sep);
    JoinSnoc([a, b], c, sep);
    JoinSnoc([a, b, c], d, sep);
  }

  /** The join of five strings. */
  lemma Join5(a: string, b: string, c: string, d: string, e: string, sep: string)
    ensures Join([a, b, c, d, e], sep) == a + sep + b + sep + c + sep + d + sep + e
  {
    assert [a, b, c, d, e] == [a, b, c, d] + [e];
    JoinSnoc([a, b, c, d], e, sep);
    Join4(a, b, c, d, sep);
  }

  /** A character in neither the strings nor the separator is not in their join. */
  lemma {:induction false} JoinAvoids(xs: seq<string>, sep: string, c: char)
    requires c !in sep && forall i :: 0 <= i < |xs| ==> c !in xs[i]
    ensures c !in Join(xs, sep)
    decreases |xs|
  {
    if |xs| >= 2 {
      JoinAvoids(xs[1..], sep, c);
    }
  }
}
