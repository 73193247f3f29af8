/** Character-sequence helpers shared by argument validation and README
    rendering: JavaScript's notion of white space and `trim`, substring
    occurrence search, and joining and splitting on line feeds. */
module Strings {
  import opened Wrappers

  /** The characters that JavaScript's `String.prototype.trim` removes: the
      WhiteSpace and LineTerminator code points of ECMA-262. */
  predicate IsWhitespace(c: char) {
    || c == '\t' || c == '\n' || c == '\U{000B}' || c == '\U{000C}' || c == '\r'
    || c == ' ' || c == '\U{00A0}' || c == '\U{1680}'
    || ('\U{2000}' <= c <= '\U{200A}')
    || c == '\U{2028}' || c == '\U{2029}' || c == '\U{202F}' || c == '\U{205F}'
    || c == '\U{3000}' || c == '\U{FEFF}'
  }

  predicate AllWhitespace(s: string) {
    forall k :: 0 <= k < |s| ==> IsWhitespace(s[k])
  }

  /** Number of white-space characters at the front of `s`. */
  function LeadingWhitespace(s: string): (n: nat)
    ensures n <= |s|
    ensures AllWhitespace(s[..n])
    ensures n < |s| ==> !IsWhitespace(s[n])
  {
    if |s| == 0 || !IsWhitespace(s[0]) then 0 else 1 + LeadingWhitespace(s[1..])
  }

  /** Number of white-space characters at the back of `s`. */
  function TrailingWhitespace(s: string): (n: nat)
    ensures n <= |s|
    ensures AllWhitespace(s[|s| - n..])
    ensures n < |s| ==> !IsWhitespace(s[|s| - n - 1])
  {
    if |s| == 0 || !IsWhitespace(s[|s| - 1]) then 0
    else
      var m := TrailingWhitespace(s[..|s| - 1]);
      TrailingStep(s, m);
      m + 1
  }

  /** One more white-space character at the back extends the trailing run by one. */
  lemma TrailingStep(s: string, m: nat)
    requires |s| > 0 && IsWhitespace(s[|s| - 1]) && m <= |s| - 1
    requires var init := s[..|s| - 1];
      && AllWhitespace(init[|init| - m..])
      && (m < |init| ==> !IsWhitespace(init[|init| - m - 1]))
    ensures AllWhitespace(s[|s| - (m + 1)..])
    ensures m + 1 < |s| ==> !IsWhitespace(s[|s| - (m + 1) - 1])
  {
    var init := s[..|s| - 1];
    var tail := s[|s| - (m + 1)..];
    forall i | 0 <= i < |tail| ensures IsWhitespace(tail[i]) {
      if i < m {
        assert tail[i] == init[|init| - m..][i];
      } else {
        assert tail[i] == s[|s| - 1];
      }
    }
    if m + 1 < |s| {
      assert s[|s| - (m + 1) - 1] == init[|init| - m - 1];
    }
  }

  /** `String.prototype.trim`: `s` without its leading and trailing white space. */
  function Trim(s: string): (r: string)
    ensures r == [] <==> AllWhitespace(s)
    ensures r != [] ==> !IsWhitespace(r[0]) && !IsWhitespace(r[|r| - 1])
    ensures exists i :: 0 <= i <= |s| - |r| && AllWhitespace(s[..i])
                        && s[i..] == r + s[i + |r|..] && AllWhitespace(s[i + |r|..])
  {
    var a := LeadingWhitespace(s);
    var b := TrailingWhitespace(s[a..]);
    TrimCutOfRest(s, a, b);
    TrimmedSlice(s, a, b);
    s[a..|s| - b]
  }

  /** Cutting `a` characters from the front and `b` from the back of `s`
      removes exactly its leading and trailing white space. */
  predicate TrimCut(s: string, a: nat, b: nat) {
    && a + b <= |s|
    && AllWhitespace(s[..a]) && AllWhitespace(s[|s| - b..])
    && (a < |s| ==> !IsWhitespace(s[a]))
    && (a + b < |s| ==> !IsWhitespace(s[|s| - b - 1]))
  }

  /** The trailing run of the rest after the leading run, read back in `s`. */
  lemma TrimCutOfRest(s: string, a: nat, b: nat)
    requires a <= |s| && AllWhitespace(s[..a]) && (a < |s| ==> !IsWhitespace(s[a]))
    requires var rest := s[a..];
      && b <= |rest| && AllWhitespace(rest[|rest| - b..])
      && (b < |rest| ==> !IsWhitespace(rest[|rest| - b - 1]))
    ensures TrimCut(s, a, b)
  {
    var rest := s[a..];
    assert s[|s| - b..] == rest[|rest| - b..];
    if a + b < |s| {
      assert s[|s| - b - 1] == rest[|rest| - b - 1];
    }
  }

  /** The slice that `Trim` keeps has the properties `Trim` promises. */
  lemma TrimmedSlice(s: string, a: nat, b: nat)
    requires TrimCut(s, a, b)
    ensures var r := s[a..|s| - b];
      && (r == [] <==> AllWhitespace(s))
      && (r != [] ==> !IsWhitespace(r[0]) && !IsWhitespace(r[|r| - 1]))
      && AllWhitespace(s[..a]) && s[a..] == r + s[a + |r|..] && AllWhitespace(s[a + |r|..])
  {
    var r := s[a..|s| - b];
    assert s[a..] == r + s[|s| - b..];
    if a + b == |s| {
      AllWhitespaceConcat(s, a);
    } else {
      assert r[0] == s[a];
      assert r[|r| - 1] == s[|s| - b - 1];
    }
  }

  /** A string with no white space at either end is its own trimming. */
  lemma TrimOfTrimmed(s: string)
    requires s != [] && !IsWhitespace(s[0]) && !IsWhitespace(s[|s| - 1])
    ensures Trim(s) == s
  {
    assert LeadingWhitespace(s) == 0;
    assert s[0..] == s;
    assert TrailingWhitespace(s) == 0;
  }

  /** Trimming twice is trimming once. */
  lemma TrimIdempotent(s: string)
    ensures Trim(Trim(s)) == Trim(s)
  {
    var r := Trim(s);
    if r != [] {
      TrimOfTrimmed(r);
    } else {
      assert LeadingWhitespace(r) == 0;
    }
  }

  lemma AllWhitespaceConcat(s: string, a: nat)
    requires a <= |s| && AllWhitespace(s[..a]) && AllWhitespace(s[a..])
    ensures AllWhitespace(s)
  {
    forall k | 0 <= k < |s| ensures IsWhitespace(s[k]) {
      if k < a {
        assert s[k] == s[..a][k];
      } else {
        assert s[k] == s[a..][k - a];
      }
    }
  }

  /** `pat` occurs in `s` starting at index `i`. */
  predicate IsAt(s: string, pat: string, i: int) {
    0 <= i && i + |pat| <= |s| && s[i..i + |pat|] == pat
  }

  /** A one-character pattern occurs exactly where that character is. */
  lemma IsAtChar(s: string, c: char, i: int)
    ensures IsAt(s, [c], i) <==> 0 <= i < |s| && s[i] == c
  {
    if 0 <= i < |s| {
      assert s[i..i + 1] == [s[i]];
    }
  }

  /** The first occurrence of `pat` in `s` at or after `from`. */
  function FindFrom(s: string, pat: string, from: nat): (r: Option<nat>)
    decreases |s| + 1 - from
    ensures r.Some? ==> from <= r.value && IsAt(s, pat, r.value)
    ensures r.Some? ==> forall j :: from <= j < r.value ==> !IsAt(s, pat, j)
    ensures r.None? ==> forall j :: from <= j ==> !IsAt(s, pat, j)
  {
    if from > |s| then None
    else if IsAt(s, pat, from) then Some(from)
    else FindFrom(s, pat, from + 1)
  }

  /** `indexOf`: the first occurrence of `pat` in `s`. */
  function FindFirst(s: string, pat: string): (r: Option<nat>)
    ensures r.Some? ==> IsAt(s, pat, r.value)
    ensures r.Some? ==> forall j :: 0 <= j < r.value ==> !IsAt(s, pat, j)
    ensures r.None? ==> forall j :: !IsAt(s, pat, j)
  {
    FindFrom(s, pat, 0)
  }

  /** `includes`: `pat` occurs somewhere in `s`. */
  predicate Contains(s: string, pat: string) {
    FindFirst(s, pat).Some?
  }

  /** The last occurrence of `pat` in `s` starting between `lo` and `hi`,
      found by trying `hi`, `hi - 1`, ... down to `lo`. */
  function FindLastBetween(s: string, pat: string, lo: nat, hi: nat): (r: Option<nat>)
    decreases hi
    ensures r.Some? ==> lo <= r.value <= hi && IsAt(s, pat, r.value)
    ensures r.Some? ==> forall j :: r.value < j <= hi ==> !IsAt(s, pat, j)
    ensures r.None? ==> forall j :: lo <= j <= hi ==> !IsAt(s, pat, j)
  {
    if hi < lo then None
    else if IsAt(s, pat, hi) then Some(hi)
    else if hi == lo then None
    else FindLastBetween(s, pat, lo, hi - 1)
  }

  /** `lastIndexOf`: the last occurrence of `pat` in `s`. */
  function FindLast(s: string, pat: string): (r: Option<nat>)
    ensures r.Some? ==> IsAt(s, pat, r.value)
    ensures r.Some? ==> forall j :: r.value < j ==> !IsAt(s, pat, j)
    ensures r.None? ==> forall j :: !IsAt(s, pat, j)
  {
    FindLastBetween(s, pat, 0, |s|)
  }

  /** An occurrence with none before it is the one `FindFirst` reports. */
  lemma FindFirstIs(s: string, pat: string, i: nat)
    requires IsAt(s, pat, i)
    requires forall j :: 0 <= j < i ==> !IsAt(s, pat, j)
    ensures FindFirst(s, pat) == Some(i)
  {
  }

  /** An occurrence with none after it is the one `FindLast` reports. */
  lemma FindLastIs(s: string, pat: string, i: nat)
    requires IsAt(s, pat, i)
    requires forall j :: i < j ==> !IsAt(s, pat, j)
    ensures FindLast(s, pat) == Some(i)
  {
  }

  /** Two strings that agree on their first `k` characters have the same
      occurrences inside those `k` characters. */
  lemma IsAtCommonPrefix(s: string, t: string, k: nat, pat: string, i: int)
    requires k <= |s| && k <= |t| && s[..k] == t[..k]
    requires i + |pat| <= k
    ensures IsAt(s, pat, i) <==> IsAt(t, pat, i)
  {
    if 0 <= i {
      assert s[i..i + |pat|] == s[..k][i..i + |pat|];
      assert t[i..i + |pat|] == t[..k][i..i + |pat|];
    }
  }

  /** Two strings that agree on their last `k` characters have the same
      occurrences inside those `k` characters, counted from the end. */
  lemma IsAtCommonSuffix(s: string, t: string, k: nat, pat: string, i: int)
    requires k <= |s| && k <= |t| && s[|s| - k..] == t[|t| - k..]
    requires |s| - k <= i
    ensures IsAt(s, pat, i) <==> IsAt(t, pat, i + |t| - |s|)
  {
    var d := |t| - |s|;
    if i + |pat| <= |s| {
      var u, v := s[i..i + |pat|], t[i + d..i + d + |pat|];
      forall m | 0 <= m < |pat| ensures u[m] == v[m] {
        assert s[i + m] == s[|s| - k..][i + m - (|s| - k)];
        assert t[i + d + m] == t[|t| - k..][i + m - (|s| - k)];
      }
      assert u == v;
    }
  }

  /** `Array.prototype.join('\n')`. */
  function JoinLines(lines: seq<string>): string {
    if |lines| == 0 then ""
    else if |lines| == 1 then lines[0]
    else lines[0] + "\n" + JoinLines(lines[1..])
  }

  /** `String.prototype.split('\n')`: the maximal line-feed-free pieces of `s`. */
  function SplitLines(s: string): (lines: seq<string>)
    ensures |lines| >= 1
  {
    if |s| == 0 then [""]
    else
      var rest := SplitLines(s[1..]);
      if s[0] == '\n' then [""] + rest else [[s[0]] + rest[0]] + rest[1..]
  }

  /** A string without line feeds is a single line. */
  lemma {:induction false} SplitSingleLine(s: string)
    requires '\n' !in s
    ensures SplitLines(s) == [s]
  {
    if |s| > 0 {
      SplitSingleLine(s[1..]);
      assert [s[0]] + s[1..] == s;
    }
  }

  /** Splitting at a line feed splits the two sides independently. */
  lemma {:induction false} SplitAtNewline(a: string, b: string)
    ensures SplitLines(a + ['\n'] + b) == SplitLines(a) + SplitLines(b)
  {
    var s := a + ['\n'] + b;
    if |a| == 0 {
      assert s == ['\n'] + b;
      assert s[1..] == b;
    } else {
      assert s[0] == a[0];
      assert s[1..] == a[1..] + ['\n'] + b;
      SplitAtNewline(a[1..], b);
      if a[0] == '\n' {
        SplitStepBreak(s, SplitLines(a[1..]), SplitLines(b));
        SplitStepBreak(a, SplitLines(a[1..]), []);
      } else {
        SplitStepChar(s, SplitLines(a[1..]), SplitLines(b));
        SplitStepChar(a, SplitLines(a[1..]), []);
      }
    }
  }

  /** One unfolding of `SplitLines` at a leading line feed, the tail splitting into `x + y`. */
  lemma SplitStepBreak(s: string, x: seq<string>, y: seq<string>)
    requires |s| > 0 && s[0] == '\n'
    requires SplitLines(s[1..]) == x + y
    ensures SplitLines(s) == ([""] + x) + y
  {
    assert [""] + (x + y) == ([""] + x) + y;
  }

  /** One unfolding of `SplitLines` at a leading other character, the tail splitting into `x + y`. */
  lemma SplitStepChar(s: string, x: seq<string>, y: seq<string>)
    requires |s| > 0 && s[0] != '\n' && |x| >= 1
    requires SplitLines(s[1..]) == x + y
    ensures SplitLines(s) == ([[s[0]] + x[0]] + x[1..]) + y
  {
    var rest := SplitLines(s[1..]);
    assert SplitLines(s) == [[s[0]] + rest[0]] + rest[1..];
    assert rest[0] == x[0];
    assert rest[1..] == x[1..] + y;
  }

  /** Splitting undoes joining for a non-empty list of line-feed-free lines. */
  lemma {:induction false} SplitJoinLines(lines: seq<string>)
    requires |lines| >= 1
    requires forall i :: 0 <= i < |lines| ==> '\n' !in lines[i]
    ensures SplitLines(JoinLines(lines)) == lines
  {
    SplitSingleLine(lines[0]);
    if |lines| > 1 {
      SplitJoinLines(lines[1..]);
      SplitAtNewline(lines[0], JoinLines(lines[1..]));
    }
  }
}
