/** `updateReadMe`: renders the multi-project contributors as a block between
    two marker comments and puts it into the README text, appending it when
    the text has no start marker and otherwise replacing the region matched by
    `/<!-- contributors:start -->([\s\S]*)<!-- contributors:end -->/`.
    Reading and writing the file are left to the caller: the old text is a
    parameter and the new text the result. */
module Readme {
  import opened Wrappers
  import opened Strings
  import opened Decimal
  import opened Contributors
  import opened Splice

  const StartMarker: string := "<!-- contributors:start -->"
  const EndMarker: string := "<!-- contributors:end -->"
  const TotalLabel: string := "Total: "

  // ---------------------------------------------------------------- rendering

  /** `- ${name} (${count})`. */
  function Line(c: Contributor): string {
    "- " + c.name + " (" + NatToString(c.commits) + ")"
  }

  function Lines(cs: seq<Contributor>): (ls: seq<string>)
    ensures |ls| == |cs|
  {
    if |cs| == 0 then [] else [Line(cs[0])] + Lines(cs[1..])
  }

  /** Names that JavaScript's `String.prototype.replace` copies literally. */
  predicate NoReplacementPatterns(cs: seq<Contributor>) {
    forall i :: 0 <= i < |cs| ==> '$' !in cs[i].name
  }

  predicate SingleLineNames(cs: seq<Contributor>) {
    forall i :: 0 <= i < |cs| ==> '\n' !in cs[i].name
  }

  /** `Total: ${contributors.length}`. */
  function TotalLine(n: nat): string {
    TotalLabel + NatToString(n)
  }

  /** What the template literal puts between the two markers. */
  function Inner(cs: seq<Contributor>): string {
    "\n" + JoinLines(Lines(cs)) + "\n" + TotalLine(|cs|) + "\n"
  }

  /** The block the source builds with its template literal. */
  function Render(cs: seq<Contributor>): (b: string)
    ensures IsFramed(b, StartMarker, EndMarker)
    ensures NoReplacementPatterns(cs) ==> '$' !in b
  {
    var b := StartMarker + Inner(cs) + EndMarker;
    Framed(StartMarker, Inner(cs), EndMarker);
    assert NoReplacementPatterns(cs) ==> '$' !in Inner(cs) by {
      if NoReplacementPatterns(cs) {
        InnerAvoids(cs);
      }
    }
    b
  }

  /** The text between the markers holds only line feeds, digits, the fixed
      text of the lines and total, and the names' own characters. */
  lemma InnerAvoids(cs: seq<Contributor>)
    requires NoReplacementPatterns(cs)
    ensures '$' !in Inner(cs)
  {
    LinesAvoid(cs, '$');
    JoinLinesAvoids(Lines(cs), '$');
    NumeralAvoids(|cs|, '$');
  }

  lemma NumeralAvoids(n: nat, ch: char)
    requires !IsDigit(ch)
    ensures ch !in NatToString(n)
  {
    var numeral := NatToString(n);
    forall k | 0 <= k < |numeral| ensures numeral[k] != ch {
      assert IsDigit(numeral[k]);
    }
  }

  /** A character that is in no name, no numeral and no fixed text of a line
      is in no line. */
  lemma {:induction false} LinesAvoid(cs: seq<Contributor>, ch: char)
    requires forall i :: 0 <= i < |cs| ==> ch !in cs[i].name
    requires !IsDigit(ch) && ch != '-' && ch != ' ' && ch != '(' && ch != ')'
    ensures forall i :: 0 <= i < |cs| ==> ch !in Lines(cs)[i]
  {
    if |cs| > 0 {
      LinesAvoid(cs[1..], ch);
      NumeralAvoids(cs[0].commits, ch);
      forall i | 0 <= i < |cs| ensures ch !in Lines(cs)[i] {
        if i > 0 {
          assert Lines(cs)[i] == Lines(cs[1..])[i - 1];
        }
      }
    }
  }

  /** `c` appears in the joined text only if it is a line feed or in some line. */
  lemma {:induction false} JoinLinesAvoids(lines: seq<string>, c: char)
    requires c != '\n'
    requires forall i :: 0 <= i < |lines| ==> c !in lines[i]
    ensures c !in JoinLines(lines)
  {
    if |lines| > 1 {
      JoinLinesAvoids(lines[1..], c);
    }
  }

  // ------------------------------------------------------------------ parsing

  /** Reads `- name (count)` back, taking the last `(` as the one before the count. */
  function ParseLine(l: string): Option<Contributor> {
    if |l| < 2 || l[..2] != "- " || l[|l| - 1] != ')' then None
    else
      match FindLast(l, "(")
      case None => None
      case Some(k) =>
        if k < 3 || l[k - 1] != ' ' || k + 1 >= |l| - 1 || !AllDigits(l[k + 1..|l| - 1]) then None
        else Some(Contributor(l[2..k - 1], DigitsValue(l[k + 1..|l| - 1])))
  }

  function ParseLines(ls: seq<string>): Option<seq<Contributor>> {
    if |ls| == 0 then Some([])
    else
      match (ParseLine(ls[0]), ParseLines(ls[1..]))
      case (Some(c), Some(cs)) => Some([c] + cs)
      case _ => None
  }

  /** Reads `Total: n` back. */
  function ParseTotal(l: string): Option<nat> {
    if |l| <= |TotalLabel| || l[..|TotalLabel|] != TotalLabel || !AllDigits(l[|TotalLabel|..]) then None
    else Some(DigitsValue(l[|TotalLabel|..]))
  }

  /** Reads a block back into its contributors, checking the markers and the total. */
  function ParseBlock(b: string): Option<seq<Contributor>> {
    var lines := SplitLines(b);
    if |lines| < 3 || lines[0] != StartMarker || lines[|lines| - 1] != EndMarker then None
    else
      var body := lines[1..|lines| - 2];
      var entries := if body == [""] then [] else body;
      match (ParseLines(entries), ParseTotal(lines[|lines| - 2]))
      case (Some(cs), Some(n)) => if n == |cs| then Some(cs) else None
      case _ => None
  }

  lemma ParseLineOfLine(c: Contributor)
    ensures ParseLine(Line(c)) == Some(c)
  {
    var numeral := NatToString(c.commits);
    var l := Line(c);
    var k := |c.name| + 3;
    LastParenOfLine(c);
    assert l[..2] == "- ";
    assert l[k - 1] == ' ';
    assert l[2..k - 1] == c.name;
    assert l[k + 1..|l| - 1] == numeral;
    DigitsValueOfNatToString(c.commits);
  }

  /** The last `(` of a line is the one that opens the count. */
  lemma LastParenOfLine(c: Contributor)
    ensures FindLast(Line(c), "(") == Some(|c.name| + 3)
  {
    var numeral := NatToString(c.commits);
    var l := Line(c);
    var k := |c.name| + 3;
    assert |l| == k + |numeral| + 2;
    assert l[k] == '(';
    IsAtChar(l, '(', k);
    forall j | k < j ensures !IsAt(l, "(", j) {
      IsAtChar(l, '(', j);
      if k < j < |l| - 1 {
        assert l[j] == numeral[j - k - 1];
        assert IsDigit(l[j]);
      } else if j == |l| - 1 {
        assert l[j] == ')';
      }
    }
    FindLastIs(l, "(", k);
  }

  lemma {:induction false} ParseLinesOfLines(cs: seq<Contributor>)
    ensures ParseLines(Lines(cs)) == Some(cs)
  {
    if |cs| > 0 {
      ParseLineOfLine(cs[0]);
      ParseLinesOfLines(cs[1..]);
      assert Lines(cs)[1..] == Lines(cs[1..]);
      assert [cs[0]] + cs[1..] == cs;
    }
  }

  lemma ParseTotalOfTotal(n: nat)
    ensures ParseTotal(TotalLine(n)) == Some(n)
  {
    var l := TotalLine(n);
    assert l[..|TotalLabel|] == TotalLabel;
    assert l[|TotalLabel|..] == NatToString(n);
    DigitsValueOfNatToString(n);
  }

  /** The lines of a block: the start marker, one line per contributor (one
      empty line when there are none), the total, and the end marker. */
  lemma RenderLines(cs: seq<Contributor>)
    requires SingleLineNames(cs)
    ensures SplitLines(Render(cs)) ==
      [StartMarker] + (if |cs| == 0 then [""] else Lines(cs)) + [TotalLine(|cs|), EndMarker]
  {
    if |cs| > 0 {
      LinesAvoid(cs, '\n');
      SplitJoinLines(Lines(cs));
    }
    TotalLineSingle(|cs|);
    MarkersSingle();
    var body := JoinLines(Lines(cs));
    SplitFramed(StartMarker, body, TotalLine(|cs|), EndMarker);
    assert Render(cs) == StartMarker + ("\n" + body + "\n" + TotalLine(|cs|) + "\n") + EndMarker;
  }

  lemma TotalLineSingle(n: nat)
    ensures '\n' !in TotalLine(n)
  {
    NumeralAvoids(n, '\n');
  }

  lemma MarkersSingle()
    ensures '\n' !in StartMarker && '\n' !in EndMarker
  {
  }

  /** The lines of `s + "\n" + body + "\n" + t + "\n" + e` for single-line `s`, `t`, `e`. */
  lemma SplitFramed(s: string, body: string, t: string, e: string)
    requires '\n' !in s && '\n' !in t && '\n' !in e
    ensures SplitLines(s + ("\n" + body + "\n" + t + "\n") + e)
            == [s] + SplitLines(body) + [t, e]
  {
    Regroup(s, body, t, e);
    SplitAtNewline(t, e);
    SplitAtNewline(body, t + ['\n'] + e);
    SplitAtNewline(s, body + ['\n'] + (t + ['\n'] + e));
    SplitSingleLine(s);
    SplitSingleLine(t);
    SplitSingleLine(e);
  }

  lemma Regroup(s: string, body: string, t: string, e: string)
    ensures s + ("\n" + body + "\n" + t + "\n") + e
            == s + ['\n'] + (body + ['\n'] + (t + ['\n'] + e))
  {
  }

  /** Parsing a rendered block gives back the contributors it was rendered from. */
  lemma RenderParses(cs: seq<Contributor>)
    requires SingleLineNames(cs)
    ensures ParseBlock(Render(cs)) == Some(cs)
  {
    RenderLines(cs);
    var lines := SplitLines(Render(cs));
    var body := lines[1..|lines| - 2];
    assert body == (if |cs| == 0 then [""] else Lines(cs));
    if |cs| > 0 {
      assert Lines(cs)[0] == Line(cs[0]);
      assert body != [""] by { assert |Line(cs[0])| > 0; }
    }
    ParseLinesOfLines(cs);
    ParseTotalOfTotal(|cs|);
  }

  /** Different contributor lists render to different blocks. */
  lemma RenderInjective(cs: seq<Contributor>, ds: seq<Contributor>)
    requires SingleLineNames(cs) && SingleLineNames(ds)
    requires Render(cs) == Render(ds)
    ensures cs == ds
  {
    RenderParses(cs);
    RenderParses(ds);
  }

  // ----------------------------------------------------------------- updating

  /** The marked region of a README text. */
  function MarkedRegion(readme: string): Option<Span> {
    Region(readme, StartMarker, EndMarker)
  }

  /** `updateReadMe` on the file contents: the rendered block is appended
      when the text has no start marker and replaces the marked region
      otherwise; a text with a start marker but no end marker after it is
      left as it is. */
  function UpdateReadMe(readme: string, cs: seq<Contributor>): (r: string)
    requires NoReplacementPatterns(cs)
    ensures !Contains(readme, StartMarker) ==>
      |r| > |readme| && r[..|readme|] == readme && r[|readme|..] == "\n\n" + Render(cs)
    ensures Contains(readme, StartMarker) && MarkedRegion(readme).None? ==> r == readme
    ensures MarkedRegion(readme).Some? ==>
      var m := MarkedRegion(readme).value;
      m.start <= m.end <= |readme| && r == readme[..m.start] + Render(cs) + readme[m.end..]
    // after an update that changed something, the marked region is the rendered block
    ensures !Contains(readme, StartMarker) || MarkedRegion(readme).Some? ==>
      && MarkedRegion(r).Some?
      && var m := MarkedRegion(r).value; m.start <= m.end <= |r| && r[m.start..m.end] == Render(cs)
  {
    MarkersSingle();
    SpliceMakesRegion(readme, Render(cs), StartMarker, EndMarker);
    SpliceBlock(readme, Render(cs), StartMarker, EndMarker)
  }

  /** Running `updateReadMe` twice with the same contributors gives the text
      of running it once. */
  lemma UpdateReadMeIdempotent(readme: string, cs: seq<Contributor>)
    requires NoReplacementPatterns(cs)
    ensures UpdateReadMe(UpdateReadMe(readme, cs), cs) == UpdateReadMe(readme, cs)
  {
    MarkersSingle();
    SpliceIdempotent(readme, Render(cs), StartMarker, EndMarker);
  }
}
