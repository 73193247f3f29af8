/** The text replacement at the heart of `updateReadMe`, for any pair of
    marker strings `open` and `close`: when the text does not include `open`,
    the block is appended after a blank line; otherwise the first match of the
    regular expression `open([\s\S]*)close` is replaced by the block. */
module Splice {
  import opened Wrappers
  import opened Strings

  /** A match of the regular expression: the characters `[start, end)` of the text. */
  datatype Span = Span(start: nat, end: nat)

  /** `b` opens with `open` and closes with `close`, the two not overlapping. */
  predicate IsFramed(b: string, open: string, close: string) {
    && |b| >= |open| + |close|
    && b[..|open|] == open
    && b[|b| - |close|..] == close
  }

  lemma Framed(open: string, mid: string, close: string)
    ensures IsFramed(open + mid + close, open, close)
  {
    var b := open + mid + close;
    assert b[..|open|] == open;
    assert b[|b| - |close|..] == close;
  }

  // ------------------------------------------------------- matching the region

  /** Where a match beginning with `open` at `p` ends. The greedy `([\s\S]*)`
      first consumes the whole rest of the text and then gives it back one
      character at a time until `close` follows, so the positions of `close`
      are tried from `|s|` down to `p + |open|`. */
  function GreedyEnd(s: string, open: string, close: string, p: nat): Option<nat> {
    match FindLastBetween(s, close, p + |open|, |s|)
    case None => None
    case Some(q) => Some(q + |close|)
  }

  /** The regular-expression search, trying start positions from `from`
      rightwards, as a backtracking matcher does to find the leftmost match. */
  function RegexSearch(s: string, open: string, close: string, from: nat): (r: Option<Span>)
    decreases |s| + 1 - from
    ensures r.Some? ==> from <= r.value.start && IsAt(s, open, r.value.start)
    ensures r.Some? ==> r.value.start + |open| + |close| <= r.value.end
    ensures r.Some? ==> IsAt(s, close, r.value.end - |close|)
  {
    if from > |s| then None
    else if IsAt(s, open, from) && GreedyEnd(s, open, close, from).Some? then
      Some(Span(from, GreedyEnd(s, open, close, from).value))
    else RegexSearch(s, open, close, from + 1)
  }

  /** Declarative reading of the match: from the first `open` to the last
      `close`, provided that `close` begins after `open` ends. */
  function Region(s: string, open: string, close: string): Option<Span> {
    match FindFirst(s, open)
    case None => None
    case Some(p) =>
      match FindLast(s, close)
      case None => None
      case Some(q) => if p + |open| <= q then Some(Span(p, q + |close|)) else None
  }

  /** The greedy end is the last `close` of the whole text, if it lies far enough right. */
  lemma GreedyEndIsLast(s: string, open: string, close: string, p: nat)
    ensures GreedyEnd(s, open, close, p) ==
      match FindLast(s, close)
      case Some(q) => if p + |open| <= q then Some(q + |close|) else None
      case None => None
  {
    var lo := p + |open|;
    var last := FindLast(s, close);
    var between := FindLastBetween(s, close, lo, |s|);
    if between.Some? {
      assert IsAt(s, close, between.value);
    } else {
      assert last.Some? ==> !IsAt(s, close, last.value) || last.value < lo;
    }
  }

  /** With no `close` at or after `lo`, no start position from `p` on matches. */
  lemma {:induction false} NoMatchFrom(s: string, open: string, close: string, p: nat, lo: nat)
    requires lo <= p + |open|
    requires forall j :: lo <= j ==> !IsAt(s, close, j)
    ensures RegexSearch(s, open, close, p) == None
    decreases |s| + 1 - p
  {
    if p <= |s| {
      GreedyEndIsLast(s, open, close, p);
      NoMatchFrom(s, open, close, p + 1, lo);
    }
  }

  lemma {:induction false} RegexSearchFrom(s: string, open: string, close: string, from: nat)
    requires forall j :: 0 <= j < from ==> !IsAt(s, open, j)
    ensures RegexSearch(s, open, close, from) == Region(s, open, close)
    decreases |s| + 1 - from
  {
    if from > |s| {
      assert FindFirst(s, open).None?;
    } else if IsAt(s, open, from) {
      FindFirstIs(s, open, from);
      GreedyEndIsLast(s, open, close, from);
      if GreedyEnd(s, open, close, from).None? {
        NoMatchFrom(s, open, close, from + 1, from + |open|);
      }
    } else {
      RegexSearchFrom(s, open, close, from + 1);
    }
  }

  /** The leftmost greedy match runs from the first `open` to the last `close`. */
  lemma RegexSearchIsRegion(s: string, open: string, close: string)
    ensures RegexSearch(s, open, close, 0) == Region(s, open, close)
  {
    RegexSearchFrom(s, open, close, 0);
  }

  /** The region starts at the first `open`, ends with the last `close`, and
      the two do not overlap. */
  lemma RegionBounds(s: string, open: string, close: string)
    requires Region(s, open, close).Some?
    ensures var m := Region(s, open, close).value;
      && IsAt(s, open, m.start) && IsAt(s, close, m.end - |close|)
      && m.start + |open| + |close| <= m.end <= |s|
      && (forall j :: 0 <= j < m.start ==> !IsAt(s, open, j))
      && (forall j :: m.end - |close| < j ==> !IsAt(s, close, j))
  {
  }

  // ---------------------------------------------------------------- splicing

  /** `text.includes(open)` ? `text.replace(/open([\s\S]*)close/, block)` :
      `text + "\n\n" + block`. The block must contain no `$`, so that
      `replace` inserts it literally. */
  function SpliceBlock(text: string, block: string, open: string, close: string): (r: string)
    requires '$' !in block
    ensures !Contains(text, open) ==>
      |r| > |text| && r[..|text|] == text && r[|text|..] == "\n\n" + block
    ensures Contains(text, open) && Region(text, open, close).None? ==> r == text
    ensures Region(text, open, close).Some? ==>
      var m := Region(text, open, close).value;
      m.start <= m.end <= |text| && r == text[..m.start] + block + text[m.end..]
  {
    RegexSearchIsRegion(text, open, close);
    if !Contains(text, open) then
      var r := text + "\n\n" + block;
      assert r[..|text|] == text;
      r
    else
      match RegexSearch(text, open, close, 0)
      case None => text
      case Some(m) => text[..m.start] + block + text[m.end..]
  }

  /** Appending to a text without `open`: the appended block's markers are
      the first `open` and the last `close` of the result. */
  lemma AppendedRegion(s: string, block: string, open: string, close: string)
    requires !Contains(s, open) && IsFramed(block, open, close) && '\n' !in open
    ensures var t := s + "\n\n" + block;
      Region(t, open, close) == Some(Span(|s| + 2, |t|))
  {
    var u := s + "\n\n";
    var t := u + block;
    var p := |u|;
    AppendedSlice(u, block, 0, |open|);
    assert t[p..p + |open|] == open;
    forall j | 0 <= j < p ensures !IsAt(t, open, j) {
      if j + |open| <= |s| {
        IsAtCommonPrefix(s, t, |s|, open, j);
      } else {
        NewlineBreaks(t, open, j, if j <= |s| then |s| else |s| + 1);
      }
    }
    FindFirstIs(t, open, p);
    var q := |t| - |close|;
    AppendedSlice(u, block, |block| - |close|, |block|);
    assert t[q..q + |close|] == close;
    FindLastIs(t, close, q);
  }

  /** A slice of the appended part of `u + v` is the same slice of `v`. */
  lemma AppendedSlice(u: string, v: string, i: nat, j: nat)
    requires i <= j <= |v|
    ensures (u + v)[|u| + i..|u| + j] == v[i..j]
  {
  }

  /** A line feed at `m` stops a line-feed-free pattern from occurring across it. */
  lemma NewlineBreaks(t: string, pat: string, j: nat, m: nat)
    requires '\n' !in pat && m < |t| && t[m] == '\n' && j <= m < j + |pat|
    ensures !IsAt(t, pat, j)
  {
    if j + |pat| <= |t| {
      assert t[j..j + |pat|][m - j] == '\n';
    }
  }

  /** Replacing the region by a framed block: the block's own markers become
      the first `open` and the last `close` of the result. */
  lemma ReplacedRegion(s: string, block: string, open: string, close: string)
    requires Region(s, open, close).Some? && IsFramed(block, open, close)
    ensures var m := Region(s, open, close).value;
      var t := s[..m.start] + block + s[m.end..];
      Region(t, open, close) == Some(Span(m.start, m.start + |block|))
  {
    RegionBounds(s, open, close);
    var m := Region(s, open, close).value;
    ReplacedFirst(s, block, open, m.start, m.end);
    ReplacedLast(s, block, close, m.start, m.end);
  }

  /** Where `block` begins with `pat` and replaces `s[p..e]`, and `s` has
      its first `pat` at `p`, the result has its first `pat` at `p` too. */
  lemma ReplacedFirst(s: string, block: string, pat: string, p: nat, e: nat)
    requires |pat| <= |block| && block[..|pat|] == pat
    requires p <= e <= |s| && IsAt(s, pat, p)
    requires forall j :: 0 <= j < p ==> !IsAt(s, pat, j)
    ensures FindFirst(s[..p] + block + s[e..], pat) == Some(p)
  {
    var t := s[..p] + block + s[e..];
    var n := |pat|;
    assert t[p..p + n] == pat by {
      assert t[p..p + n] == block[..n];
    }
    assert s[..p + n] == t[..p + n] by {
      assert s[..p + n] == s[..p] + s[p..p + n];
      assert t[..p + n] == s[..p] + t[p..p + n];
    }
    forall j | 0 <= j < p ensures !IsAt(t, pat, j) {
      IsAtCommonPrefix(s, t, p + n, pat, j);
    }
    FindFirstIs(t, pat, p);
  }

  /** Where `block` ends with `pat` and replaces `s[p..e]`, and `s` has its
      last `pat` ending at `e`, the result has its last `pat` at the block's end. */
  lemma ReplacedLast(s: string, block: string, pat: string, p: nat, e: nat)
    requires |pat| <= |block| && block[|block| - |pat|..] == pat
    requires p <= e - |pat| && e <= |s|
    requires IsAt(s, pat, e - |pat|)
    requires forall j :: e - |pat| < j ==> !IsAt(s, pat, j)
    ensures FindLast(s[..p] + block + s[e..], pat) == Some(p + |block| - |pat|)
  {
    var t := s[..p] + block + s[e..];
    var n := |pat|;
    var q, q' := e - n, p + |block| - n;
    var k := |s| - q;
    assert t[q'..q' + n] == pat by {
      assert t[q'..q' + n] == block[|block| - n..];
    }
    assert s[|s| - k..] == t[|t| - k..] by {
      assert 0 <= q <= e <= |s|;
      assert s[q..] == s[q..e] + s[e..];
      assert t[q'..] == t[q'..q' + n] + s[e..];
    }
    forall j | q' < j ensures !IsAt(t, pat, j) {
      IsAtCommonSuffix(s, t, k, pat, j - (|t| - |s|));
    }
    FindLastIs(t, pat, q');
  }

  /** After splicing, unless the text had `open` but no region, the block is
      exactly the region of the result. */
  lemma SpliceMakesRegion(text: string, block: string, open: string, close: string)
    requires '$' !in block && IsFramed(block, open, close) && '\n' !in open
    ensures var r := SpliceBlock(text, block, open, close);
      !Contains(text, open) || Region(text, open, close).Some? ==>
      && Region(r, open, close).Some?
      && var m := Region(r, open, close).value;
         m.start <= m.end <= |r| && r[m.start..m.end] == block
  {
    var r := SpliceBlock(text, block, open, close);
    if !Contains(text, open) {
      AppendedRegion(text, block, open, close);
      assert r == text + "\n\n" + block;
      assert r[|text| + 2..|r|] == block;
    } else if Region(text, open, close).Some? {
      ReplacedRegion(text, block, open, close);
      var m := Region(text, open, close).value;
      assert r[m.start..m.start + |block|] == block;
    }
  }

  /** Splicing a block into a text whose region already holds it changes nothing. */
  lemma SpliceOverOwnRegion(t: string, block: string, open: string, close: string)
    requires '$' !in block && Region(t, open, close).Some?
    requires var m := Region(t, open, close).value;
      m.start <= m.end <= |t| && t[m.start..m.end] == block
    ensures SpliceBlock(t, block, open, close) == t
  {
    var m := Region(t, open, close).value;
    assert t[..m.start] + t[m.start..m.end] + t[m.end..] == t;
  }

  /** Splicing the same framed block twice gives the text of splicing it once. */
  lemma SpliceIdempotent(text: string, block: string, open: string, close: string)
    requires '$' !in block && IsFramed(block, open, close) && '\n' !in open
    ensures var once := SpliceBlock(text, block, open, close);
      SpliceBlock(once, block, open, close) == once
  {
    var once := SpliceBlock(text, block, open, close);
    SpliceMakesRegion(text, block, open, close);
    if !Contains(text, open) || Region(text, open, close).Some? {
      SpliceOverOwnRegion(once, block, open, close);
    } else {
      assert once == text;
    }
  }
}
