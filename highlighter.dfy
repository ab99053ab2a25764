/**
 * The syntax highlighter of the generated record's code block: JAVA_PATTERN
 * and the loop of addHighlightedCodeBlock that cuts the code into chunks.
 *
 * JAVA_PATTERN has four alternatives, tried in this order at each offset:
 *   \b(public|...|final)\b     a keyword standing as a whole word
 *   ".*?"                      a quote to the next quote on the same line
 *   //.*                       a line comment, up to the line end
 *   /\*[\s\S]*?\*\/            a block comment, up to the first `*` `/`
 * The loop turns the text between matches into plain chunks and each match
 * into a comment, string or keyword chunk according to its first characters.
 */
module Highlighter {
  import opened Wrappers
  import opened Text
  import opened JavaRegex
  import Sanitise

  /** A keyword table: alternatives that are all words. */
  type Table = ws: seq<string> | AllWords(ws) witness []

  /** The words of the keyword alternative, in the order the pattern lists them. */
  const Keywords: seq<string> := [
    "public", "private", "protected", "class", "static", "void", "int", "double",
    "float", "char", "boolean", "if", "else", "for", "while", "return", "new",
    "import", "package", "try", "catch", "throws", "throw", "extends",
    "implements", "interface", "byte", "short", "long", "switch", "case",
    "default", "break", "continue", "final"
  ]

  /** The font a chunk is set in: base, italic green, dark red, bold blue. */
  datatype Kind = Plain | Comment | StringLit | Keyword

  /** One `Chunk` added to the code paragraph. */
  datatype Chunk = Chunk(kind: Kind, text: string)

  lemma KeywordsAreWords()
    ensures AllWords(Keywords)
  {
    forall i | 0 <= i < |Keywords| ensures IsWord(Keywords[i]) {
      assert |Keywords[i]| > 0 && IsLowerWord(Keywords[i]);
    }
  }

  /** The keyword alternative's words as a table. */
  function JavaKeywords(): Table {
    KeywordsAreWords();
    Keywords
  }

  /** A non-empty run of word characters. */
  predicate IsWord(w: string) {
    |w| > 0 && forall k :: 0 <= k < |w| ==> IsWordChar(w[k])
  }

  /** Only lower-case ASCII letters. */
  predicate IsLowerWord(w: string) {
    forall k :: 0 <= k < |w| ==> 'a' <= w[k] <= 'z'
  }

  /** Every entry of a keyword table is a word. */
  predicate AllWords(words: seq<string>) {
    forall k :: 0 <= k < |words| ==> IsWord(words[k])
  }

  /** The keyword alternative without its leading \b: the first listed word spelled at i with \b after it. */
  function KeywordAlternative(s: string, i: nat, ws: Table): (r: Option<nat>)
    requires i <= |s|
    ensures r.Some? ==> i < r.value <= |s|
    decreases |ws|
  {
    if ws == [] then None
    else if i + |ws[0]| <= |s| && s[i..i + |ws[0]|] == ws[0] && IsBoundary(s, i + |ws[0]|) then
      assert IsWord(ws[0]);
      Some(i + |ws[0]|)
    else
      KeywordAlternative(s, i, ws[1..])
  }

  /** `\b(public|...|final)\b` at offset i. */
  function KeywordMatch(words: Table, s: string, i: nat): (r: Option<nat>)
    requires i < |s|
    ensures r.Some? ==> i < r.value <= |s|
  {
    if IsBoundary(s, i) then KeywordAlternative(s, i, words) else None
  }

  /** `".*?"` at offset i. */
  function StringMatch(s: string, i: nat): Option<nat>
    requires i < |s|
  {
    if s[i] == '"' then QuoteClose(s, i + 1) else None
  }

  /** `//.*` at offset i. */
  function LineCommentMatch(s: string, i: nat): Option<nat>
    requires i < |s|
  {
    if i + 1 < |s| && s[i] == '/' && s[i + 1] == '/' then Some(RestOfLine(s, i + 2)) else None
  }

  /** A `*` followed by a `/` at offset k. */
  predicate IsCommentClose(s: string, k: nat)
    requires k + 1 < |s|
  {
    s[k] == '*' && s[k + 1] == '/'
  }

  /** Lazy `[\s\S]*?\*\/` from offset j: the end just past the first `*` `/`. */
  function BlockClose(s: string, j: nat): (r: Option<nat>)
    requires j <= |s|
    ensures r.Some? ==> j + 2 <= r.value <= |s| && IsCommentClose(s, r.value - 2)
    ensures r.Some? ==> forall k :: j <= k < r.value - 2 ==> !IsCommentClose(s, k)
    ensures r.None? ==> forall k :: j <= k < |s| - 1 ==> !IsCommentClose(s, k)
    decreases |s| - j
  {
    if j + 1 >= |s| then None
    else if IsCommentClose(s, j) then Some(j + 2)
    else BlockClose(s, j + 1)
  }

  /** `/\*[\s\S]*?\*\/` at offset i. */
  function BlockCommentMatch(s: string, i: nat): Option<nat>
    requires i < |s|
  {
    if i + 1 < |s| && s[i] == '/' && s[i + 1] == '*' then BlockClose(s, i + 2) else None
  }

  /** JAVA_PATTERN tried at offset i: the end of the match of the first alternative that matches. */
  function MatchAt(words: Table, s: string, i: nat): (r: Option<nat>)
    requires i < |s|
    ensures r.Some? ==> i < r.value <= |s|
  {
    var kw := KeywordMatch(words, s, i);
    if kw.Some? then kw
    else
      var str := StringMatch(s, i);
      if str.Some? then str
      else
        var line := LineCommentMatch(s, i);
        if line.Some? then line else BlockCommentMatch(s, i)
  }

  /** `matcher.find()` resuming at offset `from`: the leftmost match, as (start, end). */
  function FindFrom(words: Table, s: string, from: nat): (r: Option<(nat, nat)>)
    requires from <= |s|
    ensures r.Some? ==> from <= r.value.0 < r.value.1 <= |s| && MatchAt(words, s, r.value.0) == Some(r.value.1)
    decreases |s| - from
  {
    if from == |s| then None
    else
      var m := MatchAt(words, s, from);
      if m.Some? then Some((from, m.value)) else FindFrom(words, s, from + 1)
  }

  /** The kind the loop gives a match, judged by its first characters. */
  function Classify(m: string): Kind {
    if StartsWith(m, "//") || StartsWith(m, "/*") then Comment
    else if StartsWith(m, "\"") then StringLit
    else Keyword
  }

  /**
   * The chunks the loop emits once `lastEnd` is `from`: the gap before the
   * next match as a plain chunk (when not empty), the match classified, then
   * the rest; after the last match, what is left as one plain chunk.
   */
  function ChunksFrom(words: Table, s: string, from: nat): seq<Chunk>
    requires from <= |s|
    decreases |s| - from
  {
    match FindFrom(words, s, from)
    case None => if from < |s| then [Chunk(Plain, s[from..])] else []
    case Some((start, end)) =>
      (if from < start then [Chunk(Plain, s[from..start])] else []) +
      [Chunk(Classify(s[start..end]), s[start..end])] + ChunksFrom(words, s, end)
  }

  /** The chunks of the code paragraph for an already sanitised code text. */
  function Tokenize(s: string): seq<Chunk> {
    ChunksFrom(JavaKeywords(), s, 0)
  }

  /** One turn of the loop, unfolded. */
  lemma ChunksStep(words: Table, s: string, from: nat, start: nat, end: nat)
    requires from <= |s| && FindFrom(words, s, from) == Some((start, end))
    ensures ChunksFrom(words, s, from) == (if from < start then [Chunk(Plain, s[from..start])] else []) +
      [Chunk(Classify(s[start..end]), s[start..end])] + ChunksFrom(words, s, end)
  {
  }

  lemma Regroup(a: seq<Chunk>, g: seq<Chunk>, c: Chunk, r: seq<Chunk>)
    ensures a + (g + [c] + r) == (a + g + [c]) + r
  {
  }

  /**
   * addHighlightedCodeBlock's chunking loop. The code is sanitised, then every
   * `matcher.find()` contributes the gap before the match (when not empty) as
   * a plain chunk and the match itself, classified by its first characters;
   * what follows the last match is a final plain chunk. A missing code text
   * gives no chunks.
   */
  method HighlightedChunks(code: Option<string>) returns (chunks: seq<Chunk>)
    ensures code.None? ==> chunks == []
    ensures code.Some? ==> chunks == Tokenize(Sanitise.Sanitise(code.value))
  {
    var text := if code.Some? then Sanitise.Sanitise(code.value) else "";
    chunks := [];
    var lastEnd: nat := 0;
    var found := FindFrom(JavaKeywords(), text, lastEnd);
    while found.Some?
      invariant lastEnd <= |text|
      invariant found == FindFrom(JavaKeywords(), text, lastEnd)
      invariant chunks + ChunksFrom(JavaKeywords(), text, lastEnd) == Tokenize(text)
      decreases |text| - lastEnd
    {
      var (start, end) := found.value;
      ChunksStep(JavaKeywords(), text, lastEnd, start, end);
      ghost var before := chunks;
      ghost var gap := if lastEnd < start then [Chunk(Plain, text[lastEnd..start])] else [];
      if start > lastEnd {
        chunks := chunks + [Chunk(Plain, text[lastEnd..start])];
      }
      var m := text[start..end];
      chunks := chunks + [Chunk(Classify(m), m)];
      assert chunks == before + gap + [Chunk(Classify(m), m)];
      Regroup(before, gap, Chunk(Classify(m), m), ChunksFrom(JavaKeywords(), text, end));
      lastEnd := end;
      found := FindFrom(JavaKeywords(), text, lastEnd);
    }
    if code.Some? && lastEnd < |text| {
      chunks := chunks + [Chunk(Plain, text[lastEnd..])];
    }
  }
}
