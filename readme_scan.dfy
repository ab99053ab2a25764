/**
 * How importFromRepository reads the experiment number and title off the
 * README: the heading pattern `(?i)#\s*Experiment\s+(\d+)[\s:\-]*(.*)`
 * searched in each trimmed line, and the fallback to a `# ` title line.
 *
 * `(?i)` without UNICODE_CASE folds ASCII letters only, which is what
 * LowerAscii does.
 */
module ReadmeScan {
  import opened Wrappers
  import opened Text
  import opened JavaRegex

  /** The title an import gets when the README names none. */
  const DefaultTitle: string := "Imported Experiment"

  /** A title line holding this text, in any case, is a badge and not a title. */
  const ReviewBadge: string := "![review assignment"

  const ExperimentWord: string := "experiment"

  /** `[\s:\-]`, the separators between the number and the title. */
  predicate IsSeparator(c: char) {
    IsSpace(c) || c == ':' || c == '-'
  }

  /** w, in lower case, spelled at offset q of s with ASCII letters compared regardless of case. */
  predicate SpelledIgnoringCase(s: string, q: nat, w: string) {
    q + |w| <= |s| && ToLowerAscii(s[q..q + |w|]) == w
  }

  /** `(\d+)` from offset d: the longest run of digits there (empty when the group cannot match). */
  function DigitsAt(s: string, d: nat): (no: string)
    requires d <= |s|
    ensures forall k :: 0 <= k < |no| ==> IsDigit(no[k])
  {
    var e := SkipWhile(s, d, IsDigit);
    assert forall k :: 0 <= k < e - d ==> s[d..e][k] == s[d + k];
    s[d..e]
  }

  /** `[\s:\-]*(.*)` from offset d: the rest of the line past the separators. */
  function TitleAt(s: string, d: nat): (title: string)
    requires d <= |s|
    ensures title == [] || !IsSeparator(title[0])
    ensures forall k :: 0 <= k < |title| ==> !IsLineEnd(title[k])
  {
    var g := SkipWhile(s, d, IsSeparator);
    var e := RestOfLine(s, g);
    assert forall k :: 0 <= k < e - g ==> s[g..e][k] == s[g + k];
    s[g..e]
  }

  /** The title is the rest of the line after the longest run of separators, and nothing else is. */
  lemma TitleAtSpans(s: string, d: nat) returns (g: nat, h: nat)
    requires d <= |s|
    ensures GreedyRun(s, d, g, IsSeparator) && LineRest(s, g, h) && TitleAt(s, d) == s[g..h]
  {
    g := SkipWhile(s, d, IsSeparator);
    h := RestOfLine(s, g);
  }

  lemma TitleAtSpelled(s: string, d: nat, g: nat, h: nat)
    requires d <= |s| && GreedyRun(s, d, g, IsSeparator) && LineRest(s, g, h)
    ensures TitleAt(s, d) == s[g..h]
  {
    SkipWhileUnique(s, d, g, IsSeparator);
    RestOfLineUnique(s, g, h);
  }

  /**
   * The heading pattern tried at offset p: its two groups, the number and
   * the title, when it matches there. Each quantified part is greedy and
   * cannot give anything back (what follows it cannot start with a character
   * it takes), so trying only the longest runs is the pattern's meaning.
   */
  function HeadingAt(s: string, p: nat): (r: Option<(string, string)>)
    requires p <= |s|
    ensures r.Some? ==> r.value.0 != [] && forall k :: 0 <= k < |r.value.0| ==> IsDigit(r.value.0[k])
    ensures r.Some? ==> r.value.1 == [] || !IsSeparator(r.value.1[0])
    ensures r.Some? ==> forall k :: 0 <= k < |r.value.1| ==> !IsLineEnd(r.value.1[k])
  {
    if p < |s| && s[p] == '#' then WordAt(s, SkipWhile(s, p + 1, IsSpace)) else None
  }

  /** `Experiment\s+(\d+)[\s:\-]*(.*)` from offset q, the word in any case. */
  function WordAt(s: string, q: nat): Option<(string, string)>
    requires q <= |s|
  {
    if SpelledIgnoringCase(s, q, ExperimentWord) then NumberAt(s, q + |ExperimentWord|) else None
  }

  /** `\s+(\d+)[\s:\-]*(.*)` from offset w, just past the word: at least one space, then the number and the title. */
  function NumberAt(s: string, w: nat): Option<(string, string)>
    requires w <= |s|
  {
    var d := SkipWhile(s, w, IsSpace);
    var no := DigitsAt(s, d);
    if w < d && no != [] then Some((no, TitleAt(s, d + |no|))) else None
  }

  /**
   * A match of the heading pattern at offset p, read off the pattern piece by
   * piece: `#` at p, spaces up to q, the word at q in any case, at least one
   * space up to d, the digits s[d..e] (group 1), the separators up to g and the
   * rest of the line s[g..h] (group 2). The last three runs are greedy, which
   * is how find() picks among the ways the pattern could match.
   */
  predicate HeadingSpans(s: string, p: nat, q: nat, d: nat, e: nat, g: nat, h: nat) {
    p < |s| && s[p] == '#' &&
    p + 1 <= q <= |s| && (forall k :: p + 1 <= k < q ==> IsSpace(s[k])) &&
    SpelledIgnoringCase(s, q, ExperimentWord) && NumberSpans(s, q + |ExperimentWord|, d, e, g, h)
  }

  /** The part of such a match after the word, which ends at w. */
  predicate NumberSpans(s: string, w: nat, d: nat, e: nat, g: nat, h: nat) {
    w < d <= |s| && (forall k :: w <= k < d ==> IsSpace(s[k])) &&
    d < e && GreedyRun(s, d, e, IsDigit) && GreedyRun(s, e, g, IsSeparator) && LineRest(s, g, h)
  }

  /** Any match of the pattern at p gives HeadingAt those groups. */
  lemma HeadingAtSpelled(s: string, p: nat, q: nat, d: nat, e: nat, g: nat, h: nat)
    requires HeadingSpans(s, p, q, d, e, g, h)
    ensures HeadingAt(s, p) == Some((s[d..e], s[g..h]))
  {
    WordAfterSpaces(s, p, q);
    WordAtSpelled(s, q);
    NumberAtSpelled(s, q + |ExperimentWord|, d, e, g, h);
  }

  lemma WordAtSpelled(s: string, q: nat)
    requires q <= |s| && SpelledIgnoringCase(s, q, ExperimentWord)
    ensures WordAt(s, q) == NumberAt(s, q + |ExperimentWord|)
  {
  }

  /** The spaces after `#` end where the word starts. */
  lemma WordAfterSpaces(s: string, p: nat, q: nat)
    requires p + 1 <= q <= |s| && (forall k :: p + 1 <= k < q ==> IsSpace(s[k]))
    requires SpelledIgnoringCase(s, q, ExperimentWord)
    ensures SkipWhile(s, p + 1, IsSpace) == q
  {
    assert LowerAscii(s[q..q + |ExperimentWord|][0]) == ExperimentWord[0];
    SkipWhileUnique(s, p + 1, q, IsSpace);
  }

  lemma NumberAtSpelled(s: string, w: nat, d: nat, e: nat, g: nat, h: nat)
    requires NumberSpans(s, w, d, e, g, h)
    ensures NumberAt(s, w) == Some((s[d..e], s[g..h]))
  {
    assert IsDigit(s[d]);
    SkipWhileUnique(s, w, d, IsSpace);
    DigitsSpelled(s, d, e);
    TitleAtSpelled(s, e, g, h);
    NumberAtIs(s, w, d, e);
  }

  /** NumberAt, once the spaces end at d and the digits there end at e. */
  lemma NumberAtIs(s: string, w: nat, d: nat, e: nat)
    requires w < d < e <= |s| && SkipWhile(s, w, IsSpace) == d && DigitsAt(s, d) == s[d..e]
    ensures NumberAt(s, w) == Some((s[d..e], TitleAt(s, e)))
  {
    assert d + |s[d..e]| == e;
  }

  /** And HeadingAt succeeds only where the pattern matches, with the groups of that match. */
  lemma HeadingAtSpans(s: string, p: nat) returns (q: nat, d: nat, e: nat, g: nat, h: nat)
    requires p <= |s| && HeadingAt(s, p).Some?
    ensures HeadingSpans(s, p, q, d, e, g, h) && HeadingAt(s, p) == Some((s[d..e], s[g..h]))
  {
    q := HashFound(s, p);
    var w := WordFound(s, q);
    d, e, g, h := NumberAtSpans(s, w);
  }

  lemma HashFound(s: string, p: nat) returns (q: nat)
    requires p <= |s| && HeadingAt(s, p).Some?
    ensures p < |s| && s[p] == '#' && q == SkipWhile(s, p + 1, IsSpace) && HeadingAt(s, p) == WordAt(s, q)
  {
    q := SkipWhile(s, p + 1, IsSpace);
  }

  lemma WordFound(s: string, q: nat) returns (w: nat)
    requires q <= |s| && WordAt(s, q).Some?
    ensures w == q + |ExperimentWord| && w <= |s| && SpelledIgnoringCase(s, q, ExperimentWord)
    ensures WordAt(s, q) == NumberAt(s, w) && NumberAt(s, w).Some?
  {
    w := q + |ExperimentWord|;
  }

  lemma NumberAtSpans(s: string, w: nat) returns (d: nat, e: nat, g: nat, h: nat)
    requires w <= |s| && NumberAt(s, w).Some?
    ensures NumberSpans(s, w, d, e, g, h)
    ensures NumberAt(s, w) == Some((s[d..e], s[g..h]))
  {
    d := NumberFound(s, w);
    e := DigitsRun(s, d);
    NumberAtIs(s, w, d, e);
    g, h := TitleAtSpans(s, e);
  }

  /** Where NumberAt succeeds, the spaces end at some d with digits there. */
  lemma NumberFound(s: string, w: nat) returns (d: nat)
    requires w <= |s| && NumberAt(s, w).Some?
    ensures w < d <= |s| && SkipWhile(s, w, IsSpace) == d && DigitsAt(s, d) != []
  {
    d := SkipWhile(s, w, IsSpace);
  }

  /** The digits DigitsAt takes are the greedy run of `\d` at d, and any such run is what it takes. */
  lemma DigitsRun(s: string, d: nat) returns (e: nat)
    requires d <= |s|
    ensures GreedyRun(s, d, e, IsDigit) && DigitsAt(s, d) == s[d..e]
  {
    e := SkipWhile(s, d, IsDigit);
  }

  lemma DigitsSpelled(s: string, d: nat, e: nat)
    requires GreedyRun(s, d, e, IsDigit)
    ensures DigitsAt(s, d) == s[d..e]
  {
    SkipWhileUnique(s, d, e, IsDigit);
  }

  /** The heading pattern tried at every offset of s, the end included. */
  function HeadingAttempts(s: string): (hs: seq<Option<(string, string)>>)
    ensures |hs| == |s| + 1 && forall p {:trigger hs[p]} :: 0 <= p <= |s| ==> hs[p] == HeadingAt(s, p)
  {
    seq(|s| + 1, p requires 0 <= p <= |s| => HeadingAt(s, p))
  }

  /** `matcher.find()` with the heading pattern: the groups of the leftmost match. */
  function FindHeading(s: string): Option<(string, string)> {
    FindFirst(HeadingAttempts(s), 0)
  }

  /** What one README line says. */
  datatype Heading =
    | Numbered(no: string, title: string)   // the heading pattern: a number and a title
    | TitleOnly(title: string)              // a `# ` line that is not the review badge
    | NoHeading                             // blank, or neither: the scan goes on

  /** A `# ` title line that is not the review assignment badge. */
  predicate IsTitleLine(t: string) {
    StartsWith(t, "# ") && !Contains(ToLowerAscii(t), ReviewBadge)
  }

  /** `line.replace("#", "").trim()` */
  function TitleOf(t: string): (r: string)
    ensures '#' !in r
  {
    var bare := Replace(t, "#", "");
    ReplaceCharRemoves(t, '#', "");
    Trim(bare)
  }

  /** The title line's text is the line without its `#` characters, trimmed. */
  lemma TitleOfStrips(t: string)
    ensures TitleOf(t) == Trim(Strip(t, '#'))
  {
    assert "#" == ['#'];
    ReplaceCharDeletes(t, '#');
  }

  /** What the scan makes of one line: it trims it, skips it when blank, then tries the two rules in order. */
  function LineHeading(line: string): Heading {
    var t := Trim(line);
    if t == [] then NoHeading
    else
      match FindHeading(t)
      case Some((no, title)) => Numbered(Trim(no), Trim(title))
      case None => if IsTitleLine(t) then TitleOnly(TitleOf(t)) else NoHeading
  }

  /** What the scan makes of each line, in order. */
  function LineHeadings(lines: seq<string>): (hs: seq<Heading>)
    ensures |hs| == |lines| && forall k :: 0 <= k < |lines| ==> hs[k] == LineHeading(lines[k])
  {
    seq(|lines|, k requires 0 <= k < |lines| => LineHeading(lines[k]))
  }

  /** The first heading that is not NoHeading: where the scan stops. */
  function FirstHeadingOf(hs: seq<Heading>): Heading
    decreases |hs|
  {
    if hs == [] then NoHeading
    else if hs[0] != NoHeading then hs[0]
    else FirstHeadingOf(hs[1..])
  }

  /** The heading of the first line that has one; the scan stops there. */
  function ReadmeHeading(lines: seq<string>): Heading {
    FirstHeadingOf(LineHeadings(lines))
  }

  /** The number and title the README gives, over the defaults. */
  function NumberAndTitle(readme: Option<seq<string>>, defaultNo: string): (string, string) {
    if readme.None? then (defaultNo, DefaultTitle)
    else
      match ReadmeHeading(readme.value)
      case Numbered(no, title) => (no, title)
      case TitleOnly(title) => (defaultNo, title)
      case NoHeading => (defaultNo, DefaultTitle)
  }

  /**
   * The README loop of importFromRepository: each line is trimmed, blank
   * lines are skipped, and the first line that matches the heading pattern,
   * or else is a title line, sets the number and the title and ends the scan.
   */
  method ScanReadme(lines: seq<string>, defaultNo: string) returns (expNo: string, expName: string)
    ensures (expNo, expName) == NumberAndTitle(Some(lines), defaultNo)
  {
    ghost var hs := LineHeadings(lines);
    expNo, expName := defaultNo, DefaultTitle;
    var i := 0;
    while i < |lines|
      invariant 0 <= i <= |lines|
      invariant FirstHeadingOf(hs[i..]) == ReadmeHeading(lines)
      invariant expNo == defaultNo && expName == DefaultTitle
    {
      assert hs[i..][0] == LineHeading(lines[i]) && hs[i..][1..] == hs[i + 1..];
      var line := Trim(lines[i]);
      if line == [] {
        i := i + 1;
        continue;
      }
      var found := FindHeading(line);
      if found.Some? {
        expNo, expName := Trim(found.value.0), Trim(found.value.1);
        return;
      } else if StartsWith(line, "# ") && !Contains(ToLowerAscii(line), ReviewBadge) {
        expName := TitleOf(line);
        return;
      }
      i := i + 1;
    }
  }

  /** find() reports the heading at the first offset where the pattern matches. */
  lemma FindHeadingLeftmost(s: string, p: nat)
    requires p <= |s| && HeadingAt(s, p).Some?
    requires forall q :: 0 <= q < p ==> HeadingAt(s, q).None?
    ensures FindHeading(s) == HeadingAt(s, p)
  {
    FindFirstLeftmost(HeadingAttempts(s), 0, p);
  }

  /** find() fails exactly when the pattern matches at no offset. */
  lemma FindHeadingNone(s: string)
    ensures FindHeading(s).None? <==> forall p :: 0 <= p <= |s| ==> HeadingAt(s, p).None?
  {
    var hs := HeadingAttempts(s);
    FindFirstNone(hs, 0);
    if forall q :: 0 <= q < |hs| ==> hs[q].None? {
      forall p | 0 <= p <= |s| ensures HeadingAt(s, p).None? {
        assert hs[p].None?;
      }
    }
  }

  /** What find() reports is a match somewhere: a number of digits, and a title that starts past the separators. */
  lemma FindHeadingGroups(s: string)
    requires FindHeading(s).Some?
    ensures var (no, title) := FindHeading(s).value;
      no != [] && (forall k :: 0 <= k < |no| ==> IsDigit(no[k])) && (title == [] || !IsSeparator(title[0]))
  {
    var p := FindFirstFound(HeadingAttempts(s), 0);
    assert FindHeading(s) == HeadingAt(s, p);
  }

  /** A numbered heading sets a number made of digits only, and a title with nothing to trim. */
  lemma NumberedHeading(line: string)
    requires LineHeading(line).Numbered?
    ensures var h := LineHeading(line);
      h.no != [] && (forall k :: 0 <= k < |h.no| ==> IsDigit(h.no[k])) &&
      (h.title == [] || (!IsTrimmable(h.title[0]) && !IsTrimmable(h.title[|h.title| - 1])))
  {
    var t := Trim(line);
    var f := FindHeading(t);
    assert f.Some? && LineHeading(line) == Numbered(Trim(f.value.0), Trim(f.value.1));
    FindHeadingGroups(t);
    DigitsTrimmed(f.value.0);
  }

  /** Digits have nothing to trim. */
  lemma DigitsTrimmed(no: string)
    requires no != [] && forall k :: 0 <= k < |no| ==> IsDigit(no[k])
    ensures Trim(no) == no
  {
    assert IsDigit(no[0]) && IsDigit(no[|no| - 1]);
    TrimNoop(no);
  }

  /** The scan settles on the first heading; the lines before it have none. */
  lemma {:induction false} FirstHeadingAt(hs: seq<Heading>, i: nat)
    requires i < |hs| && hs[i] != NoHeading
    requires forall k :: 0 <= k < i ==> hs[k] == NoHeading
    ensures FirstHeadingOf(hs) == hs[i]
    decreases i
  {
    if i > 0 {
      FirstHeadingAt(hs[1..], i - 1);
    }
  }

  /** The scan finds nothing exactly when no line has a heading. */
  lemma {:induction false} NoHeadingAt(hs: seq<Heading>)
    ensures FirstHeadingOf(hs) == NoHeading <==> forall k :: 0 <= k < |hs| ==> hs[k] == NoHeading
    decreases |hs|
  {
    if hs != [] {
      NoHeadingAt(hs[1..]);
      assert forall k :: 1 <= k < |hs| ==> hs[k] == hs[1..][k - 1];
    }
  }

  /**
   * The README's heading is that of its first line that has one, and there is
   * none exactly when no line has one.
   */
  lemma ReadmeHeadingFirst(lines: seq<string>, i: nat)
    requires i < |lines| && LineHeading(lines[i]) != NoHeading
    requires forall k :: 0 <= k < i ==> LineHeading(lines[k]) == NoHeading
    ensures ReadmeHeading(lines) == LineHeading(lines[i])
  {
    FirstHeadingAt(LineHeadings(lines), i);
  }

  lemma ReadmeHeadingNone(lines: seq<string>)
    ensures ReadmeHeading(lines) == NoHeading <==> forall k :: 0 <= k < |lines| ==> LineHeading(lines[k]) == NoHeading
  {
    NoHeadingAt(LineHeadings(lines));
  }

  /** The README's heading, when it has one, is that of one of its lines. */
  lemma ReadmeHeadingLine(lines: seq<string>) returns (i: nat)
    requires ReadmeHeading(lines) != NoHeading
    ensures i < |lines| && ReadmeHeading(lines) == LineHeading(lines[i])
  {
    i := FirstHeadingIndex(LineHeadings(lines));
  }

  lemma {:induction false} FirstHeadingIndex(hs: seq<Heading>) returns (i: nat)
    requires FirstHeadingOf(hs) != NoHeading
    ensures i < |hs| && FirstHeadingOf(hs) == hs[i]
    decreases |hs|
  {
    if hs[0] != NoHeading {
      i := 0;
    } else {
      var j := FirstHeadingIndex(hs[1..]);
      i := j + 1;
    }
  }

  /** A blank line, or one of spaces and control characters, is skipped. */
  lemma BlankLineSkipped(line: string, rest: seq<string>)
    requires forall c :: c in line ==> IsTrimmable(c)
    ensures ReadmeHeading([line] + rest) == ReadmeHeading(rest)
  {
    BlankLineHasNoHeading(line);
    LineHeadingsCons(line, rest);
    var hs := [LineHeading(line)] + LineHeadings(rest);
    assert hs[0] == NoHeading && hs[1..] == LineHeadings(rest);
  }

  lemma BlankLineHasNoHeading(line: string)
    requires forall c :: c in line ==> IsTrimmable(c)
    ensures LineHeading(line) == NoHeading
  {
    assert Trim(line) == [];
  }

  lemma LineHeadingsCons(line: string, rest: seq<string>)
    ensures LineHeadings([line] + rest) == [LineHeading(line)] + LineHeadings(rest)
  {
    var lines := [line] + rest;
    var hs, ts := LineHeadings(lines), [LineHeading(line)] + LineHeadings(rest);
    forall k | 0 <= k < |lines| ensures hs[k] == ts[k] {
      if k > 0 {
        assert lines[k] == rest[k - 1];
      }
    }
  }

  /** `# Experiment 3: Stacks` gives number 3 and title Stacks. */
  lemma NumberedLineExample()
    ensures LineHeading("# Experiment 3: Stacks") == Numbered("3", "Stacks")
  {
    var t := "# Experiment 3: Stacks";
    NumberedLineKept();
    NumberedLineSpans();
    HeadingAtSpelled(t, 0, 2, 13, 14, 16, 22);
    FindHeadingLeftmost(t, 0);
    NumberedLineGroups();
  }

  lemma NumberedLineKept()
    ensures Trim("# Experiment 3: Stacks") == "# Experiment 3: Stacks"
  {
  }

  lemma NumberedLineSpans()
    ensures HeadingSpans("# Experiment 3: Stacks", 0, 2, 13, 14, 16, 22)
  {
    NumberedLineWord();
  }

  lemma NumberedLineWord()
    ensures SpelledIgnoringCase("# Experiment 3: Stacks", 2, ExperimentWord)
  {
    var t := "# Experiment 3: Stacks";
    assert t[2..12] == "Experiment";
    assert ToLowerAscii("Experiment") == ExperimentWord;
  }

  lemma NumberedLineGroups()
    ensures "# Experiment 3: Stacks"[13..14] == "3" && Trim("3") == "3"
    ensures "# Experiment 3: Stacks"[16..22] == "Stacks" && Trim("Stacks") == "Stacks"
  {
  }

  /** `# Linked List Demo` has no number; it is a title line with title Linked List Demo. */
  lemma TitleLineExample()
    ensures LineHeading("# Linked List Demo") == TitleOnly("Linked List Demo")
  {
    var t := "# Linked List Demo";
    TitleLineKept();
    TitleLineHasNoNumber();
    FindHeadingNone(t);
    TitleLineIsTitle();
    TitleLineText();
  }

  lemma TitleLineKept()
    ensures Trim("# Linked List Demo") == "# Linked List Demo"
  {
  }

  lemma TitleLineHasNoNumber()
    ensures forall p :: 0 <= p <= |"# Linked List Demo"| ==> HeadingAt("# Linked List Demo", p).None?
  {
    var t := "# Linked List Demo";
    forall p | 0 <= p <= |t| ensures HeadingAt(t, p).None? {
      if p == 0 {
        SkipWhileUnique(t, 1, 2, IsSpace);
        assert !SpelledIgnoringCase(t, 2, ExperimentWord) by {
          assert ToLowerAscii(t[2..12])[0] == 'l';
        }
      } else {
        assert p == |t| || t[p] != '#';
      }
    }
  }

  lemma TitleLineIsTitle()
    ensures IsTitleLine("# Linked List Demo")
  {
    var t := "# Linked List Demo";
    TitleLineStart();
    LowerKeepsBang(t);
    NotContainsFirst(ToLowerAscii(t), ReviewBadge);
  }

  lemma TitleLineStart()
    ensures StartsWith("# Linked List Demo", "# ") && '!' !in "# Linked List Demo"
    ensures ReviewBadge[0] == '!'
  {
  }

  /** Lower-casing brings in no `!`. */
  lemma LowerKeepsBang(s: string)
    requires '!' !in s
    ensures '!' !in ToLowerAscii(s)
  {
    var l := ToLowerAscii(s);
    forall k | 0 <= k < |l| ensures l[k] != '!' {
      assert l[k] == LowerAscii(s[k]);
    }
  }

  lemma TitleLineText()
    ensures TitleOf("# Linked List Demo") == "Linked List Demo"
  {
    var u := " Linked List Demo";
    TitleLineParts();
    ReplaceAtStart(u, "#", "");
    NotContainsFirst(u, "#");
    ReplaceAbsent(u, "#", "");
  }

  lemma TitleLineParts()
    ensures "# Linked List Demo" == "#" + " Linked List Demo"
    ensures "#"[0] !in " Linked List Demo" && "" + " Linked List Demo" == " Linked List Demo"
    ensures Trim(" Linked List Demo") == "Linked List Demo"
  {
    TitleLineSplit();
    TitleLineNoHash();
    TitleLineTrimmed();
  }

  lemma TitleLineSplit()
    ensures "# Linked List Demo" == "#" + " Linked List Demo"
    ensures "" + " Linked List Demo" == " Linked List Demo"
  {
  }

  lemma TitleLineNoHash()
    ensures "#"[0] !in " Linked List Demo"
  {
  }

  lemma TitleLineTrimmed()
    ensures Trim(" Linked List Demo") == "Linked List Demo"
  {
    TitleLineBlank();
    TrimAfterBlank("Linked List Demo");
  }

  lemma TitleLineBlank()
    ensures " Linked List Demo" == [' '] + "Linked List Demo"
    ensures !IsTrimmable("Linked List Demo"[0]) && !IsTrimmable("Linked List Demo"[|"Linked List Demo"| - 1])
  {
  }
}
