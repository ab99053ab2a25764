/**
 * How importFromRepository reads the run command, the input and the
 * expected output off GitHub Classroom's autograding.json without parsing
 * JSON: the text is cut at every `{`, the first piece naming both "name" and
 * "run" is taken, and extractJsonValue pulls each value out with the pattern
 * `"key"\s*:\s*"(.*?)"`.
 */
module Autograding {
  import opened Wrappers
  import opened Text
  import opened JavaRegex

  /** A backslash followed by the letter, as it stands in the JSON text. */
  const EscapedNewline: string := ['\\', 'n']
  const EscapedReturn: string := ['\\', 'r']

  /** `"key"`, quotes included. */
  function Quoted(key: string): string {
    "\"" + key + "\""
  }

  /**
   * The pattern `"key"\s*:\s*"(.*?)"` tried at offset p: the group when it
   * matches there. The runs of spaces are greedy and give nothing back (a
   * colon or a quote must follow them); the group is lazy and ends at the
   * first quote on the line.
   */
  function JsonValueAt(b: string, key: string, p: nat): (r: Option<string>)
    requires p <= |b|
    ensures r.Some? ==> '"' !in r.value && forall c :: c in r.value ==> !IsLineEnd(c)
  {
    var open := Quoted(key);
    if p + |open| <= |b| && b[p..p + |open|] == open then
      var q := SkipWhile(b, p + |open|, IsSpace);
      if q < |b| && b[q] == ':' then
        var v := SkipWhile(b, q + 1, IsSpace);
        if v < |b| && b[v] == '"' then
          match QuoteClose(b, v + 1)
          case Some(e) => Some(b[v + 1..e - 1])
          case None => None
        else None
      else None
    else None
  }

  /**
   * A match of `"key"\s*:\s*"(.*?)"` at offset p, read off the pattern piece
   * by piece: `"key"` at p, spaces up to the colon at q, spaces up to the
   * opening quote at u, then the group b[u + 1..e - 1] and the first quote on
   * the line, which ends the match at e. Neither run of spaces can stop early,
   * since a colon or a quote must follow it, and the lazy group can only stop
   * at the first quote, so these spans are the only way the pattern matches.
   */
  predicate JsonSpans(b: string, key: string, p: nat, q: nat, u: nat, e: nat) {
    p + |Quoted(key)| <= q < u < e <= |b| && b[p..p + |Quoted(key)|] == Quoted(key) &&
    (forall k :: p + |Quoted(key)| <= k < q ==> IsSpace(b[k])) && b[q] == ':' &&
    (forall k :: q + 1 <= k < u ==> IsSpace(b[k])) && b[u] == '"' &&
    ClosesQuote(b, u + 1, e)
  }

  /** Any match of the pattern at p gives JsonValueAt its group. */
  lemma JsonValueAtSpelled(b: string, key: string, p: nat, q: nat, u: nat, e: nat)
    requires JsonSpans(b, key, p, q, u, e)
    ensures JsonValueAt(b, key, p) == Some(b[u + 1..e - 1])
  {
    SkipWhileUnique(b, p + |Quoted(key)|, q, IsSpace);
    SkipWhileUnique(b, q + 1, u, IsSpace);
    var c := QuoteClose(b, u + 1);
    assert c.Some?;
    ClosesQuoteUnique(b, u + 1, e, c.value);
  }

  /** And JsonValueAt succeeds only where the pattern matches, with the group of that match. */
  lemma JsonValueAtSpans(b: string, key: string, p: nat) returns (q: nat, u: nat, e: nat)
    requires p <= |b| && JsonValueAt(b, key, p).Some?
    ensures JsonSpans(b, key, p, q, u, e) && JsonValueAt(b, key, p) == Some(b[u + 1..e - 1])
  {
    q := SkipWhile(b, p + |Quoted(key)|, IsSpace);
    u := SkipWhile(b, q + 1, IsSpace);
    e := QuoteClose(b, u + 1).value;
  }

  /** The pattern at p captures v exactly when some match of it there has v as its group. */
  lemma JsonValueAtIff(b: string, key: string, p: nat, v: string)
    requires p <= |b|
    ensures JsonValueAt(b, key, p) == Some(v) <==>
      exists q: nat, u: nat, e: nat :: JsonSpans(b, key, p, q, u, e) && v == b[u + 1..e - 1]
  {
    if JsonValueAt(b, key, p) == Some(v) {
      var q, u, e := JsonValueAtSpans(b, key, p);
    }
    if exists q: nat, u: nat, e: nat :: JsonSpans(b, key, p, q, u, e) && v == b[u + 1..e - 1] {
      var q: nat, u: nat, e: nat :| JsonSpans(b, key, p, q, u, e) && v == b[u + 1..e - 1];
      JsonValueAtSpelled(b, key, p, q, u, e);
    }
  }

  /** `matcher.find()` from offset `from`: the group of the leftmost match. */
  function FindJsonValue(b: string, key: string, from: nat): (r: Option<string>)
    requires from <= |b|
    ensures r.Some? ==> '"' !in r.value && forall c :: c in r.value ==> !IsLineEnd(c)
    decreases |b| - from
  {
    var here := JsonValueAt(b, key, from);
    if here.Some? || from == |b| then here else FindJsonValue(b, key, from + 1)
  }

  /** `.replace("\\n", "\n").replace("\\r", "\r")`: the two escapes turned into the characters they name. */
  function Unescape(v: string): string {
    Replace(Replace(v, EscapedNewline, "\n"), EscapedReturn, "\r")
  }

  /** extractJsonValue: the unescaped value, or "" when the pattern matches nowhere. */
  function ExtractJsonValue(block: string, key: string): (r: string)
    ensures '"' !in r
  {
    match FindJsonValue(block, key, 0)
    case Some(v) => Unescape(v)
    case None => ""
  }

  /** The piece of the file the scan takes its values from. */
  predicate Qualifies(block: string) {
    Contains(block, "\"name\"") && Contains(block, "\"run\"")
  }

  /** The run command, the input and the expected output. */
  datatype Fields = Fields(run: string, input: string, output: string)

  const NoFields: Fields := Fields("", "", "")

  /** The values from the first qualifying piece among blocks. */
  function FirstFields(blocks: seq<string>): Fields
    decreases |blocks|
  {
    if blocks == [] then NoFields
    else if Qualifies(blocks[0]) then
      Fields(ExtractJsonValue(blocks[0], "run"), ExtractJsonValue(blocks[0], "input"), ExtractJsonValue(blocks[0], "output"))
    else FirstFields(blocks[1..])
  }

  /** What the scan gives for the file's text, or for no file. */
  function AutogradingFields(content: Option<string>): Fields {
    if content.None? then NoFields else FirstFields(JavaSplit(content.value, '{'))
  }

  /**
   * The autograding loop of importFromRepository: the text is split at every
   * `{`, and the first piece containing both `"name"` and `"run"` supplies the
   * three values; then the loop stops.
   */
  method ScanAutograding(jsonContent: string) returns (runCmd: string, input: string, output: string)
    ensures Fields(runCmd, input, output) == AutogradingFields(Some(jsonContent))
  {
    runCmd, input, output := "", "", "";
    var blocks := JavaSplit(jsonContent, '{');
    var i := 0;
    while i < |blocks|
      invariant 0 <= i <= |blocks|
      invariant FirstFields(blocks[i..]) == FirstFields(blocks)
      invariant runCmd == "" && input == "" && output == ""
    {
      var block := blocks[i];
      assert blocks[i..][0] == block && blocks[i..][1..] == blocks[i + 1..];
      if Contains(block, "\"name\"") && Contains(block, "\"run\"") {
        runCmd := ExtractJsonValue(block, "run");
        input := ExtractJsonValue(block, "input");
        output := ExtractJsonValue(block, "output");
        return;
      }
      i := i + 1;
    }
  }

  /** The values come from the first qualifying piece; the pieces before it do not qualify. */
  lemma {:induction false} FirstFieldsAt(blocks: seq<string>, i: nat)
    requires i < |blocks| && Qualifies(blocks[i])
    requires forall k :: 0 <= k < i ==> !Qualifies(blocks[k])
    ensures FirstFields(blocks) == Fields(ExtractJsonValue(blocks[i], "run"),
      ExtractJsonValue(blocks[i], "input"), ExtractJsonValue(blocks[i], "output"))
    decreases i
  {
    if i > 0 {
      FirstFieldsAt(blocks[1..], i - 1);
    }
  }

  /** With no qualifying piece all three values are empty. */
  lemma {:induction false} NoQualifyingBlock(blocks: seq<string>)
    requires forall k :: 0 <= k < |blocks| ==> !Qualifies(blocks[k])
    ensures FirstFields(blocks) == NoFields
    decreases |blocks|
  {
    if blocks != [] {
      NoQualifyingBlock(blocks[1..]);
    }
  }

  /** None of the three values holds a quote. */
  lemma {:induction false} FieldsHaveNoQuote(blocks: seq<string>)
    ensures var f := FirstFields(blocks); '"' !in f.run && '"' !in f.input && '"' !in f.output
    decreases |blocks|
  {
    if blocks != [] && !Qualifies(blocks[0]) {
      FieldsHaveNoQuote(blocks[1..]);
    }
  }

  /** find() reports the value at the first offset where the pattern matches. */
  lemma {:induction false} FindJsonValueLeftmost(b: string, key: string, from: nat, p: nat)
    requires from <= p <= |b| && JsonValueAt(b, key, p).Some?
    requires forall q :: from <= q < p ==> JsonValueAt(b, key, q).None?
    ensures FindJsonValue(b, key, from) == JsonValueAt(b, key, p)
    decreases p - from
  {
    if from < p {
      FindJsonValueLeftmost(b, key, from + 1, p);
    }
  }

  /** A key the pattern finds nowhere gives "". */
  lemma {:induction false} MissingKey(b: string, key: string, from: nat)
    requires from <= |b|
    requires forall p :: from <= p <= |b| ==> JsonValueAt(b, key, p).None?
    ensures FindJsonValue(b, key, from).None?
    decreases |b| - from
  {
    if from < |b| {
      MissingKey(b, key, from + 1);
    }
  }

  /** A value without backslashes is taken as it stands. */
  lemma UnescapeNoBackslash(v: string)
    requires '\\' !in v
    ensures Unescape(v) == v
  {
    NotContainsFirst(v, EscapedNewline);
    ReplaceAbsent(v, EscapedNewline, "\n");
    NotContainsFirst(v, EscapedReturn);
    ReplaceAbsent(v, EscapedReturn, "\r");
  }

  /** Each escape becomes the character it names: `\n` a newline, `\r` a carriage return. */
  lemma UnescapeExample()
    ensures Unescape(['a', '\\', 'n', 'b']) == "a\nb"
    ensures Unescape(['\\', 'r', '\\', 'n']) == "\r\n"
  {
    var u: string := ['a', '\\', 'n', 'b'];
    var u1: string := ['\\', 'n', 'b'];
    assert u[..2][0] == 'a' && u[1..] == u1;
    assert u1[..2] == EscapedNewline && u1[2..] == ['b'];
    assert Replace(u1, EscapedNewline, "\n") == "\nb";
    assert Replace(u, EscapedNewline, "\n") == "a\nb";
    NotContainsFirst("a\nb", EscapedReturn);
    ReplaceAbsent("a\nb", EscapedReturn, "\r");

    var v: string := ['\\', 'r', '\\', 'n'];
    var v1: string := ['r', '\\', 'n'];
    var v2: string := ['\\', 'n'];
    assert v[..2][1] == 'r' && v[1..] == v1;
    assert v1[..2][0] == 'r' && v1[1..] == v2;
    assert v2[..2] == EscapedNewline && v2[2..] == [];
    assert Replace(v2, EscapedNewline, "\n") == "\n";
    assert Replace(v1, EscapedNewline, "\n") == ['r', '\n'];
    var w: string := ['\\', 'r', '\n'];
    assert Replace(v, EscapedNewline, "\n") == w;
    assert w[..2] == EscapedReturn && w[2..] == "\n";
    assert Replace("\n", EscapedReturn, "\r") == "\n";
  }

  /**
   * Reference definition: one left-to-right pass that turns each `\n` into a
   * newline and each `\r` into a carriage return and copies everything else.
   */
  function UnescapeEach(v: string): string
    decreases |v|
  {
    if |v| >= 2 && v[0] == '\\' && v[1] == 'n' then "\n" + UnescapeEach(v[2..])
    else if |v| >= 2 && v[0] == '\\' && v[1] == 'r' then "\r" + UnescapeEach(v[2..])
    else if v == [] then []
    else [v[0]] + UnescapeEach(v[1..])
  }

  /**
   * The two replace calls in a row are the one pass: the first cannot make a
   * new `\r` (a backslash it keeps is followed by what followed it before), and
   * the second finds exactly the `\r` the one pass finds.
   */
  lemma {:induction false} UnescapeOnePass(v: string)
    ensures Unescape(v) == UnescapeEach(v)
    decreases |v|
  {
    if v == [] {
    } else if |v| >= 2 && v[0] == '\\' && v[1] == 'n' {
      var y := Replace(v[2..], EscapedNewline, "\n");
      PairHit(v, EscapedNewline, "\n");
      PairMiss("\n" + y, EscapedReturn, "\r");
      assert ("\n" + y)[0] == '\n' && ("\n" + y)[1..] == y;
      UnescapeOnePass(v[2..]);
    } else if |v| >= 2 && v[0] == '\\' && v[1] == 'r' {
      var y := Replace(v[2..], EscapedNewline, "\n");
      PairMiss(v, EscapedNewline, "\n");
      PairMiss(v[1..], EscapedNewline, "\n");
      assert v[1..][0] == 'r' && v[1..][1..] == v[2..];
      var z := ['\\'] + (['r'] + y);
      PairHit(z, EscapedReturn, "\r");
      assert z[2..] == y;
      UnescapeOnePass(v[2..]);
    } else {
      var y := Replace(v[1..], EscapedNewline, "\n");
      PairMiss(v, EscapedNewline, "\n");
      if v[0] == '\\' {
        NoReturnAfter(v[1..]);
      }
      PairMiss([v[0]] + y, EscapedReturn, "\r");
      assert ([v[0]] + y)[0] == v[0] && ([v[0]] + y)[1..] == y;
      UnescapeOnePass(v[1..]);
    }
  }

  /** Replacing `\n` puts no `r` first that was not first before. */
  lemma NoReturnAfter(t: string)
    requires t == [] || t[0] != 'r'
    ensures var y := Replace(t, EscapedNewline, "\n"); y == [] || y[0] != 'r'
  {
    if |t| >= 2 && t[0] == '\\' && t[1] == 'n' {
      PairHit(t, EscapedNewline, "\n");
    } else if t != [] {
      PairMiss(t, EscapedNewline, "\n");
    }
  }

  /** A value the pattern can take, written as `"key": "value"`. */
  predicate Writable(v: string) {
    forall k :: 0 <= k < |v| ==> v[k] != '"' && !IsLineEnd(v[k])
  }

  /** A run of `\s` characters. */
  predicate Spaces(w: string) {
    forall k :: 0 <= k < |w| ==> IsSpace(w[k])
  }

  /** The text `"key"`, the spaces before, `:`, the spaces after, `"v"`, then anything. */
  function Entry(key: string, before: string, after: string, v: string, rest: string): string {
    Quoted(key) + before + [':'] + after + ['"'] + v + ['"'] + rest
  }

  /** Reading back what was written: the pattern at the entry yields exactly the value, whatever the spacing. */
  lemma JsonValueRoundTrip(key: string, before: string, after: string, v: string, rest: string)
    requires Spaces(before) && Spaces(after) && Writable(v)
    ensures JsonValueAt(Entry(key, before, after, v, rest), key, 0) == Some(v)
  {
    var b := Entry(key, before, after, v, rest);
    var q, u, e := EntrySpans(key, before, after, v, rest);
    JsonValueAtSpelled(b, key, 0, q, u, e);
  }

  /** Where the pieces of an entry lie. */
  lemma EntrySpans(key: string, before: string, after: string, v: string, rest: string) returns (q: nat, u: nat, e: nat)
    requires Spaces(before) && Spaces(after) && Writable(v)
    ensures var b := Entry(key, before, after, v, rest); JsonSpans(b, key, 0, q, u, e) && b[u + 1..e - 1] == v
  {
    var b := Entry(key, before, after, v, rest);
    var n := |Quoted(key)|;
    q, u := n + |before|, n + |before| + 1 + |after|;
    e := u + 1 + |v| + 1;
    assert b[..n] == Quoted(key);
    forall k | n <= k < q ensures IsSpace(b[k]) {
      assert b[k] == before[k - n];
    }
    assert b[q] == ':';
    forall k | q + 1 <= k < u ensures IsSpace(b[k]) {
      assert b[k] == after[k - (q + 1)];
    }
    assert b[u] == '"';
    forall k | u + 1 <= k < e - 1 ensures b[k] == v[k - (u + 1)] {
    }
    assert b[e - 1] == '"';
    assert b[u + 1..e - 1] == v;
  }

  /** extractJsonValue returns a written value unchanged when it holds no backslash. */
  lemma ExtractWrittenValue(key: string, before: string, after: string, v: string, rest: string)
    requires Spaces(before) && Spaces(after) && Writable(v) && '\\' !in v
    ensures ExtractJsonValue(Entry(key, before, after, v, rest), key) == v
  {
    JsonValueRoundTrip(key, before, after, v, rest);
    UnescapeNoBackslash(v);
  }
}
