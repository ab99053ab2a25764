/**
 * What JAVA_PATTERN and the chunking loop amount to, stated without the
 * order in which the pattern tries its alternatives:
 *  - the keyword alternative matches exactly a whole identifier that is in
 *    the table, whatever the order of the table;
 *  - at most one alternative can match at an offset, and each match is
 *    classified as the alternative it came from;
 *  - the chunks are the unique cutting of the text into plain runs that hold
 *    no match and matches found leftmost first.
 */
module HighlighterFacts {
  import opened Wrappers
  import opened Text
  import opened JavaRegex
  import opened Highlighter

  /** The end of the run of word characters that starts at i. */
  function WordEnd(s: string, i: nat): (e: nat)
    requires i <= |s|
    ensures i <= e <= |s|
    ensures forall k :: i <= k < e ==> IsWordChar(s[k])
    ensures e == |s| || !IsWordChar(s[e])
    decreases |s| - i
  {
    if i < |s| && IsWordChar(s[i]) then WordEnd(s, i + 1) else i
  }

  /** An identifier begins at i: a word character with none before it. */
  predicate IsWordStart(s: string, i: nat)
    requires i < |s|
  {
    IsWordChar(s[i]) && (i == 0 || !IsWordChar(s[i - 1]))
  }

  /** The keyword alternative matches s[i..e]: a whole identifier that is in the table. */
  predicate KeywordAt(words: Table, s: string, i: nat, e: nat) {
    i < |s| && IsWordStart(s, i) && e == WordEnd(s, i) && s[i..e] in words
  }

  /** The string alternative matches s[i..e]: a quote, then the text up to the next quote on its line. */
  predicate StringAt(s: string, i: nat, e: nat) {
    i < |s| && s[i] == '"' && ClosesQuote(s, i + 1, e)
  }

  /** The line comment alternative matches s[i..e]: `//` and the rest of its line. */
  predicate LineCommentAt(s: string, i: nat, e: nat) {
    i + 2 <= e <= |s| && s[i] == '/' && s[i + 1] == '/' &&
    (forall k :: i + 2 <= k < e ==> !IsLineEnd(s[k])) &&
    (e == |s| || IsLineEnd(s[e]))
  }

  // The block comment alternative matches s[i..e]: a slash and a star, up
  // to and including the first star and slash after them.
  predicate BlockCommentAt(s: string, i: nat, e: nat) {
    i + 4 <= e <= |s| && s[i] == '/' && s[i + 1] == '*' && IsCommentClose(s, e - 2) &&
    forall k :: i + 2 <= k < e - 2 ==> !IsCommentClose(s, k)
  }

  /** Some alternative of JAVA_PATTERN matches s[i..e]. */
  predicate IsMatch(words: Table, s: string, i: nat, e: nat) {
    KeywordAt(words, s, i, e) || StringAt(s, i, e) || LineCommentAt(s, i, e) || BlockCommentAt(s, i, e)
  }

  /** A listed word followed by \b at i is exactly the identifier at i. */
  lemma WordFits(s: string, i: nat, w: string)
    requires i <= |s| && IsWord(w)
    ensures (i + |w| <= |s| && s[i..i + |w|] == w && IsBoundary(s, i + |w|)) <==> s[i..WordEnd(s, i)] == w
  {
    var e := WordEnd(s, i);
    if i + |w| <= |s| && s[i..i + |w|] == w && IsBoundary(s, i + |w|) {
      forall k | i <= k < i + |w| ensures IsWordChar(s[k]) {
        assert s[k] == w[k - i];
      }
      assert s[i + |w| - 1] == w[|w| - 1];
      assert i + |w| == |s| || !IsWordChar(s[i + |w|]);
    }
    if s[i..e] == w {
      assert |w| == e - i;
      assert s[e - 1] == w[|w| - 1];
    }
  }

  /**
   * Trying the words in their listed order, each with \b after it, finds the
   * identifier at i exactly when that identifier is in the table.
   */
  lemma {:induction false} KeywordAlternativeWhole(s: string, i: nat, ws: Table)
    requires i <= |s|
    ensures KeywordAlternative(s, i, ws).Some? <==> s[i..WordEnd(s, i)] in ws
    ensures KeywordAlternative(s, i, ws).Some? ==> KeywordAlternative(s, i, ws).value == WordEnd(s, i)
    decreases |ws|
  {
    if ws != [] {
      assert IsWord(ws[0]);
      WordFits(s, i, ws[0]);
      var tail: Table := ws[1..];
      KeywordAlternativeWhole(s, i, tail);
      assert ws == [ws[0]] + tail;
    }
  }

  /** The keyword alternative, \b in front included, is KeywordAt. */
  lemma KeywordMatchWhole(words: Table, s: string, i: nat)
    requires i < |s|
    ensures KeywordMatch(words, s, i).Some? <==> KeywordAt(words, s, i, WordEnd(s, i))
    ensures KeywordMatch(words, s, i).Some? ==> KeywordMatch(words, s, i).value == WordEnd(s, i)
  {
    KeywordAlternativeWhole(s, i, words);
    var e := WordEnd(s, i);
    if s[i..e] in words {
      var k :| 0 <= k < |words| && words[k] == s[i..e];
      assert IsWord(words[k]);
      assert IsWordChar(s[i]);
    }
  }

  /** The lazy block comment body stops at the first close: only one place qualifies. */
  lemma BlockCloseUnique(s: string, j: nat, e: nat)
    requires j + 2 <= e <= |s| && IsCommentClose(s, e - 2)
    requires forall k :: j <= k < e - 2 ==> !IsCommentClose(s, k)
    ensures BlockClose(s, j) == Some(e)
  {
  }

  /**
   * JAVA_PATTERN at offset i matches s[i..e] exactly when one of its four
   * alternatives does; the order in which they are tried makes no difference,
   * since they start with different characters.
   */
  lemma MatchAtCorrect(words: Table, s: string, i: nat, e: nat)
    requires i < |s|
    ensures MatchAt(words, s, i) == Some(e) <==> IsMatch(words, s, i, e)
  {
    KeywordMatchWhole(words, s, i);
    var kw := KeywordMatch(words, s, i);
    if s[i] == '"' || s[i] == '/' {
      assert kw.None?;
    }
    if StringAt(s, i, e) {
      var q := QuoteClose(s, i + 1);
      if q.Some? {
        ClosesQuoteUnique(s, i + 1, q.value, e);
      }
    }
    if LineCommentAt(s, i, e) {
      RestOfLineUnique(s, i + 2, e);
    }
    if BlockCommentAt(s, i, e) {
      BlockCloseUnique(s, i + 2, e);
    }
    if MatchAt(words, s, i) == Some(e) && kw.None? && StringMatch(s, i).None? && LineCommentMatch(s, i).None? {
      assert BlockCommentAt(s, i, e);
    }
  }

  /** Each match is set in the font of the alternative it came from. */
  lemma ClassifyMatch(words: Table, s: string, i: nat, e: nat)
    requires IsMatch(words, s, i, e)
    ensures KeywordAt(words, s, i, e) ==> Classify(s[i..e]) == Keyword
    ensures StringAt(s, i, e) ==> Classify(s[i..e]) == StringLit
    ensures LineCommentAt(s, i, e) || BlockCommentAt(s, i, e) ==> Classify(s[i..e]) == Comment
  {
    var m := s[i..e];
    if KeywordAt(words, s, i, e) {
      assert m[0] == s[i] && IsWordChar(s[i]);
      assert !StartsWith(m, "//") && !StartsWith(m, "/*") && !StartsWith(m, "\"") by {
        assert m[..1] != "/" && m[..1] != "\"";
      }
    }
    if StringAt(s, i, e) {
      assert m[..1] == "\"";
      assert !StartsWith(m, "//") && !StartsWith(m, "/*");
    }
    if LineCommentAt(s, i, e) {
      assert m[..2] == "//";
    }
    if BlockCommentAt(s, i, e) {
      assert m[..2] == "/*";
    }
  }

  /** No match of JAVA_PATTERN starts in [a, b). */
  predicate NoMatchIn(words: Table, s: string, a: nat, b: nat)
    requires a <= b <= |s|
  {
    forall p :: a <= p < b ==> MatchAt(words, s, p).None?
  }

  /** `find()` from `from` reports (p, m) exactly when p is the first offset from `from` on where the pattern matches, and it matches up to m. */
  lemma {:induction false} FindFromLeftmost(words: Table, s: string, from: nat, p: nat, m: nat)
    requires from <= p < |s|
    ensures FindFrom(words, s, from) == Some((p, m)) <==> NoMatchIn(words, s, from, p) && MatchAt(words, s, p) == Some(m)
    decreases p - from
  {
    if from < p && MatchAt(words, s, from).None? {
      FindFromLeftmost(words, s, from + 1, p, m);
      if NoMatchIn(words, s, from + 1, p) {
        forall q | from <= q < p ensures MatchAt(words, s, q).None? {
          if q > from {
            assert from + 1 <= q < p;
          }
        }
      }
    }
  }

  /** `find()` from `from` fails exactly when no match starts at or after `from`. */
  lemma {:induction false} FindFromNone(words: Table, s: string, from: nat)
    requires from <= |s|
    ensures FindFrom(words, s, from).None? <==> NoMatchIn(words, s, from, |s|)
    decreases |s| - from
  {
    if from < |s| {
      FindFromNone(words, s, from + 1);
      if NoMatchIn(words, s, from + 1, |s|) && MatchAt(words, s, from).None? {
        forall q | from <= q < |s| ensures MatchAt(words, s, q).None? {
          if q > from {
            assert from + 1 <= q < |s|;
          }
        }
      }
    }
  }

  /** The texts of the chunks, one after another. */
  function Concat(cs: seq<Chunk>): string
    decreases |cs|
  {
    if cs == [] then [] else cs[0].text + Concat(cs[1..])
  }

  lemma {:induction false} ConcatAppend(a: seq<Chunk>, b: seq<Chunk>)
    ensures Concat(a + b) == Concat(a) + Concat(b)
    decreases |a|
  {
    if a == [] {
      assert a + b == b;
    } else {
      assert (a + b)[1..] == a[1..] + b;
      ConcatAppend(a[1..], b);
    }
  }

  /** A plain chunk may cover s[from..e]: no match starts inside it, and a match or the end follows it. */
  predicate PlainFits(words: Table, s: string, from: nat, e: nat) {
    from < e <= |s| && NoMatchIn(words, s, from, e) && (e == |s| || MatchAt(words, s, e).Some?)
  }

  /** A chunk of that kind may cover s[from..e]: it is the match at `from`, with the kind its first characters give. */
  predicate MatchFits(words: Table, s: string, from: nat, e: nat, kind: Kind) {
    from < e <= |s| && MatchAt(words, s, from) == Some(e) && kind == Classify(s[from..e])
  }

  /** Chunk c may stand at offset `from`. */
  predicate ChunkFits(words: Table, s: string, from: nat, c: Chunk) {
    var e := from + |c.text|;
    e <= |s| && s[from..e] == c.text &&
    if c.kind == Plain then PlainFits(words, s, from, e) else MatchFits(words, s, from, e, c.kind)
  }

  /**
   * The chunks are a cutting of s[from..]: every chunk is a non-empty piece of
   * the text where it stands; a plain chunk holds no match and is followed by
   * a match or the end; every other chunk is the match found where it starts,
   * with the kind its first characters give.
   */
  predicate Tokenizes(words: Table, s: string, from: nat, cs: seq<Chunk>)
    requires from <= |s|
    decreases |cs|
  {
    if cs == [] then from == |s|
    else ChunkFits(words, s, from, cs[0]) && Tokenizes(words, s, from + |cs[0].text|, cs[1..])
  }

  /** A chunk that fits, in front of a cutting of what follows it. */
  lemma TokenizesCons(words: Table, s: string, from: nat, c: Chunk, rest: seq<Chunk>)
    requires from + |c.text| <= |s| && ChunkFits(words, s, from, c)
    requires Tokenizes(words, s, from + |c.text|, rest)
    ensures Tokenizes(words, s, from, [c] + rest)
  {
    assert ([c] + rest)[1..] == rest;
  }

  /** The loop's chunks when the next match starts right away. */
  lemma ChunksAtMatch(words: Table, s: string, from: nat, m: nat)
    requires from < m <= |s| && FindFrom(words, s, from) == Some((from, m))
    ensures ChunksFrom(words, s, from) == [Chunk(Classify(s[from..m]), s[from..m])] + ChunksFrom(words, s, m)
  {
  }

  /** After the last match, the loop's chunks are a cutting. */
  lemma ChunksTokenizeLast(words: Table, s: string, from: nat)
    requires from <= |s| && FindFrom(words, s, from).None?
    ensures Tokenizes(words, s, from, ChunksFrom(words, s, from))
  {
    FindFromNone(words, s, from);
    if from < |s| {
      assert s[from..|s|] == s[from..];
      TokenizesCons(words, s, from, Chunk(Plain, s[from..]), []);
      assert ChunksFrom(words, s, from) == [Chunk(Plain, s[from..])] + [];
    }
  }

  /** A match in front of a cutting of what follows it is a cutting. */
  lemma MatchTokenizes(words: Table, s: string, start: nat, end: nat, rest: seq<Chunk>)
    requires start < end <= |s| && MatchAt(words, s, start) == Some(end)
    requires Tokenizes(words, s, end, rest)
    ensures Tokenizes(words, s, start, [Chunk(Classify(s[start..end]), s[start..end])] + rest)
  {
    TokenizesCons(words, s, start, Chunk(Classify(s[start..end]), s[start..end]), rest);
  }

  /** A gap free of matches fits as a plain chunk. */
  lemma PlainChunkFits(words: Table, s: string, from: nat, e: nat)
    requires PlainFits(words, s, from, e)
    ensures ChunkFits(words, s, from, Chunk(Plain, s[from..e]))
  {
    assert from + |s[from..e]| == e;
  }

  /** A gap free of matches, then a match, in front of a cutting of what follows: a cutting. */
  lemma GapMatchTokenizes(words: Table, s: string, from: nat, start: nat, end: nat, rest: seq<Chunk>)
    requires from < start < end <= |s| && NoMatchIn(words, s, from, start) && MatchAt(words, s, start) == Some(end)
    requires Tokenizes(words, s, end, rest)
    ensures Tokenizes(words, s, from, [Chunk(Plain, s[from..start])] + ([Chunk(Classify(s[start..end]), s[start..end])] + rest))
  {
    MatchTokenizes(words, s, start, end, rest);
    PlainTokenizes(words, s, from, start, [Chunk(Classify(s[start..end]), s[start..end])] + rest);
  }

  /** A plain gap in front of a valid cutting is a valid cutting. */
  lemma PlainTokenizes(words: Table, s: string, from: nat, e: nat, rest: seq<Chunk>)
    requires PlainFits(words, s, from, e) && Tokenizes(words, s, e, rest)
    ensures Tokenizes(words, s, from, [Chunk(Plain, s[from..e])] + rest)
  {
    PlainChunkFits(words, s, from, e);
    TokenizesCons(words, s, from, Chunk(Plain, s[from..e]), rest);
  }

  /** Before a match, the loop's chunks are a cutting if they are one from the match's end. */
  lemma ChunksTokenizeMatch(words: Table, s: string, from: nat, start: nat, end: nat)
    requires from <= start < end <= |s| && FindFrom(words, s, from) == Some((start, end))
    requires Tokenizes(words, s, end, ChunksFrom(words, s, end))
    ensures Tokenizes(words, s, from, ChunksFrom(words, s, from))
  {
    FindFromLeftmost(words, s, from, start, end);
    if from < start {
      ChunksAfterGap(words, s, from, start, end);
      GapMatchTokenizes(words, s, from, start, end, ChunksFrom(words, s, end));
    } else {
      ChunksAtMatch(words, s, from, end);
      MatchTokenizes(words, s, start, end, ChunksFrom(words, s, end));
    }
  }

  /** The loop's chunks are such a cutting. */
  lemma {:induction false} ChunksTokenize(words: Table, s: string, from: nat)
    requires from <= |s|
    ensures Tokenizes(words, s, from, ChunksFrom(words, s, from))
    decreases |s| - from
  {
    match FindFrom(words, s, from)
    case None =>
      ChunksTokenizeLast(words, s, from);
    case Some((start, end)) =>
      ChunksTokenize(words, s, end);
      ChunksTokenizeMatch(words, s, from, start, end);
  }

  /** A cutting of the text at the end has no chunks. */
  lemma TokenizesAtEnd(words: Table, s: string, cs: seq<Chunk>)
    requires Tokenizes(words, s, |s|, cs)
    ensures cs == []
  {
  }

  /** In a cutting, a plain chunk that stops before the end is followed by a matched chunk. */
  lemma PlainThenMatch(words: Table, s: string, from: nat, cs: seq<Chunk>) returns (e: nat, m: nat)
    requires from <= |s| && Tokenizes(words, s, from, cs)
    requires cs != [] && cs[0].kind == Plain && from + |cs[0].text| < |s|
    ensures |cs| >= 2 && e == from + |cs[0].text| && m == e + |cs[1].text|
    ensures from < e < m <= |s| && NoMatchIn(words, s, from, e) && MatchAt(words, s, e) == Some(m)
    ensures cs[0] == Chunk(Plain, s[from..e]) && cs[1] == Chunk(Classify(s[e..m]), s[e..m])
    ensures Tokenizes(words, s, m, cs[2..])
  {
    e := from + |cs[0].text|;
    var next := cs[1..];
    assert Tokenizes(words, s, e, next);
    m := e + |next[0].text|;
    assert next[1..] == cs[2..];
  }

  /** A plain chunk that reaches the end is all that is left. */
  lemma UniqueLastPlain(words: Table, s: string, from: nat, cs: seq<Chunk>)
    requires from <= |s| && Tokenizes(words, s, from, cs)
    requires cs != [] && cs[0].kind == Plain && from + |cs[0].text| == |s|
    ensures cs == ChunksFrom(words, s, from)
  {
    TokenizesAtEnd(words, s, cs[1..]);
    FindFromNone(words, s, from);
    assert s[from..] == s[from..|s|];
    assert ChunksFrom(words, s, from) == [Chunk(Plain, s[from..])];
    assert cs == [cs[0]];
  }

  /** The loop's chunks when the next match lies past a gap. */
  lemma ChunksAfterGap(words: Table, s: string, from: nat, e: nat, m: nat)
    requires from < e <= m <= |s| && FindFrom(words, s, from) == Some((e, m))
    ensures ChunksFrom(words, s, from) == [Chunk(Plain, s[from..e])] + ([Chunk(Classify(s[e..m]), s[e..m])] + ChunksFrom(words, s, m))
  {
    ChunksStep(words, s, from, e, m);
    Associate([Chunk(Plain, s[from..e])], [Chunk(Classify(s[e..m]), s[e..m])], ChunksFrom(words, s, m));
  }

  lemma Associate(a: seq<Chunk>, b: seq<Chunk>, c: seq<Chunk>)
    ensures a + b + c == a + (b + c)
  {
  }

  /** A gap, the match after it, then the loop's chunks from the match's end: the loop's chunks. */
  lemma UniquePlainMatch(words: Table, s: string, from: nat, e: nat, m: nat, cs: seq<Chunk>)
    requires from < e < m <= |s| && |cs| >= 2
    requires NoMatchIn(words, s, from, e) && MatchAt(words, s, e) == Some(m)
    requires cs[0] == Chunk(Plain, s[from..e]) && cs[1] == Chunk(Classify(s[e..m]), s[e..m])
    requires cs[2..] == ChunksFrom(words, s, m)
    ensures cs == ChunksFrom(words, s, from)
  {
    FindFromLeftmost(words, s, from, e, m);
    ChunksAfterGap(words, s, from, e, m);
    assert cs[1..] == [cs[1]] + cs[2..];
    assert cs == [cs[0]] + cs[1..];
  }

  /** In a cutting, a matched first chunk is the match at its offset. */
  lemma MatchThenRest(words: Table, s: string, from: nat, cs: seq<Chunk>) returns (e: nat)
    requires from <= |s| && Tokenizes(words, s, from, cs)
    requires cs != [] && cs[0].kind != Plain
    ensures e == from + |cs[0].text|
    ensures from < e <= |s| && MatchAt(words, s, from) == Some(e)
    ensures cs[0] == Chunk(Classify(s[from..e]), s[from..e]) && Tokenizes(words, s, e, cs[1..])
  {
    e := from + |cs[0].text|;
  }

  /** A match, then the loop's chunks from its end: the loop's chunks. */
  lemma UniqueMatch(words: Table, s: string, from: nat, e: nat, cs: seq<Chunk>)
    requires from < e <= |s| && cs != [] && MatchAt(words, s, from) == Some(e)
    requires cs[0] == Chunk(Classify(s[from..e]), s[from..e])
    requires cs[1..] == ChunksFrom(words, s, e)
    ensures cs == ChunksFrom(words, s, from)
  {
    FindFromLeftmost(words, s, from, from, e);
    ChunksAtMatch(words, s, from, e);
    assert cs == [cs[0]] + cs[1..];
  }

  /** A cutting is the loop's chunks: there is only one. */
  lemma {:induction false} TokenizesUnique(words: Table, s: string, from: nat, cs: seq<Chunk>)
    requires from <= |s| && Tokenizes(words, s, from, cs)
    ensures cs == ChunksFrom(words, s, from)
    decreases |cs|
  {
    if cs == [] {
      FindFromNone(words, s, from);
    } else if cs[0].kind == Plain && from + |cs[0].text| == |s| {
      UniqueLastPlain(words, s, from, cs);
    } else if cs[0].kind == Plain {
      assert from + |cs[0].text| <= |s|;
      var e, m := PlainThenMatch(words, s, from, cs);
      TokenizesUnique(words, s, m, cs[2..]);
      UniquePlainMatch(words, s, from, e, m, cs);
    } else {
      var e := MatchThenRest(words, s, from, cs);
      TokenizesUnique(words, s, e, cs[1..]);
      UniqueMatch(words, s, from, e, cs);
    }
  }

  /** The chunks are exactly the cuttings of the text: sound and unique. */
  lemma TokenizeCharacterised(s: string, cs: seq<Chunk>)
    ensures Tokenizes(JavaKeywords(), s, 0, cs) <==> cs == Tokenize(s)
  {
    ChunksTokenize(JavaKeywords(), s, 0);
    if Tokenizes(JavaKeywords(), s, 0, cs) {
      TokenizesUnique(JavaKeywords(), s, 0, cs);
    }
  }

  /** A cutting puts the whole text back together. */
  lemma {:induction false} TokenizesConcat(words: Table, s: string, from: nat, cs: seq<Chunk>)
    requires from <= |s| && Tokenizes(words, s, from, cs)
    ensures Concat(cs) == s[from..]
    decreases |cs|
  {
    if cs == [] {
    } else {
      var e := from + |cs[0].text|;
      TokenizesConcat(words, s, e, cs[1..]);
      assert s[from..] == s[from..e] + s[e..];
    }
  }

  /** No character of the code is lost or repeated: the chunk texts spell the code. */
  lemma TokenizeConcat(s: string)
    ensures Concat(Tokenize(s)) == s
  {
    ChunksTokenize(JavaKeywords(), s, 0);
    TokenizesConcat(JavaKeywords(), s, 0, Tokenize(s));
  }

  /** Every chunk has text, and no plain chunk follows a plain chunk. */
  lemma {:induction false} TokenizesShape(words: Table, s: string, from: nat, cs: seq<Chunk>)
    requires from <= |s| && Tokenizes(words, s, from, cs)
    ensures forall k :: 0 <= k < |cs| ==> cs[k].text != []
    ensures forall k :: 0 <= k < |cs| - 1 ==> !(cs[k].kind == Plain && cs[k + 1].kind == Plain)
    decreases |cs|
  {
    if cs != [] {
      var e := from + |cs[0].text|;
      TokenizesShape(words, s, e, cs[1..]);
      if |cs| > 1 && cs[0].kind == Plain {
        var next := cs[1..];
        if e == |s| {
          TokenizesAtEnd(words, s, next);
        }
      }
      forall k | 1 <= k < |cs| ensures cs[k] == cs[1..][k - 1] {
      }
    }
  }

  // A slash and a star with no star and slash after them start no match:
  // an unclosed block comment stays plain text.
  lemma UnclosedBlockComment(words: Table, s: string, i: nat)
    requires i + 1 < |s| && s[i] == '/' && s[i + 1] == '*'
    requires forall k :: i + 2 <= k < |s| - 1 ==> !IsCommentClose(s, k)
    ensures MatchAt(words, s, i).None?
  {
    if MatchAt(words, s, i).Some? {
      var e := MatchAt(words, s, i).value;
      MatchAtCorrect(words, s, i, e);
    }
  }

  /** A quote with no second quote later on its line starts no match: it stays plain text. */
  lemma UnclosedString(words: Table, s: string, i: nat)
    requires i < |s| && s[i] == '"'
    requires forall k :: i < k < RestOfLine(s, i + 1) ==> s[k] != '"'
    ensures MatchAt(words, s, i).None?
  {
    if MatchAt(words, s, i).Some? {
      MatchAtCorrect(words, s, i, MatchAt(words, s, i).value);
    }
  }

  /** A backslash does not escape a quote: the string match ends at the first quote after the opening one. */
  lemma StringIgnoresEscapes(words: Table, s: string, i: nat, j: nat)
    requires i < j < |s| && s[i] == '"' && s[j] == '"'
    requires forall k :: i < k < j ==> s[k] != '"' && !IsLineEnd(s[k])
    ensures MatchAt(words, s, i) == Some(j + 1)
  {
    MatchAtCorrect(words, s, i, j + 1);
    assert StringAt(s, i, j + 1);
  }
}
