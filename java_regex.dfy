/**
 * The pieces of java.util.regex semantics the source's patterns use:
 * the character classes \w, \d and \s, the word boundary \b, the
 * dot (which stops at a line end), greedy runs of one class and the lazy
 * `.*?"` that closes a quoted text.
 *
 * Word characters are the ASCII letters, digits and '_'; the line ends the dot
 * refuses are '\n' and '\r' (java.util.regex also refuses U+0085, U+2028 and
 * U+2029, which this model treats as ordinary characters).
 */
module JavaRegex {
  import opened Wrappers

  /** `\w`, and the word characters `\b` looks at. */
  predicate IsWordChar(c: char) {
    'a' <= c <= 'z' || 'A' <= c <= 'Z' || '0' <= c <= '9' || c == '_'
  }

  /** `\d` */
  predicate IsDigit(c: char) {
    '0' <= c <= '9'
  }

  /** `\s`: space, tab, newline, vertical tab, form feed, carriage return. */
  predicate IsSpace(c: char) {
    c == ' ' || c == '\t' || c == '\n' || c == '\U{000B}' || c == '\U{000C}' || c == '\r'
  }

  /** The line ends `.` does not match. */
  predicate IsLineEnd(c: char) {
    c == '\n' || c == '\r'
  }

  /** `\b` at offset p: a word character on exactly one side of p. */
  predicate IsBoundary(s: string, p: nat)
    requires p <= |s|
  {
    (p > 0 && IsWordChar(s[p - 1])) != (p < |s| && IsWordChar(s[p]))
  }

  /** Greedy `[f]*` from offset i: the end of the longest run of characters satisfying f. */
  function SkipWhile(s: string, i: nat, f: char -> bool): (j: nat)
    requires i <= |s|
    ensures i <= j <= |s|
    ensures forall k :: i <= k < j ==> f(s[k])
    ensures j == |s| || !f(s[j])
    decreases |s| - i
  {
    if i < |s| && f(s[i]) then SkipWhile(s, i + 1, f) else i
  }

  /** s[i..j] is a run of f that cannot be extended: what a greedy `[f]*` from i takes. */
  predicate GreedyRun(s: string, i: nat, j: nat, f: char -> bool) {
    i <= j <= |s| && (forall k :: i <= k < j ==> f(s[k])) && (j == |s| || !f(s[j]))
  }

  /** A greedy run has one end: the one SkipWhile finds. */
  lemma SkipWhileUnique(s: string, i: nat, j: nat, f: char -> bool)
    requires GreedyRun(s, i, j, f)
    ensures SkipWhile(s, i, f) == j
  {
  }

  /** s[i..j] is the rest of the line from i: no line end in it, and a line end or the end of s after it. */
  predicate LineRest(s: string, i: nat, j: nat) {
    i <= j <= |s| && (forall k :: i <= k < j ==> !IsLineEnd(s[k])) && (j == |s| || IsLineEnd(s[j]))
  }

  /** The rest of the line has one end: the one RestOfLine finds. */
  lemma RestOfLineUnique(s: string, i: nat, j: nat)
    requires LineRest(s, i, j)
    ensures RestOfLine(s, i) == j
  {
  }

  /** Greedy `.*` from offset i: everything up to the first line end. */
  function RestOfLine(s: string, i: nat): (j: nat)
    requires i <= |s|
    ensures i <= j <= |s|
    ensures forall k :: i <= k < j ==> !IsLineEnd(s[k])
    ensures j == |s| || IsLineEnd(s[j])
  {
    SkipWhile(s, i, c => !IsLineEnd(c))
  }

  /**
   * `.*?"` can close at e when starting at j: s[e - 1] is a quote and the
   * characters before it from j on are neither quotes nor line ends.
   */
  predicate ClosesQuote(s: string, j: nat, e: nat) {
    j < e <= |s| && s[e - 1] == '"' &&
    forall k :: j <= k < e - 1 ==> s[k] != '"' && !IsLineEnd(s[k])
  }

  /** Lazy `.*?"` from offset j: the end just past the first closing quote on the line. */
  function QuoteClose(s: string, j: nat): (r: Option<nat>)
    requires j <= |s|
    ensures r.Some? ==> ClosesQuote(s, j, r.value)
    ensures r.None? ==> forall e: nat :: !ClosesQuote(s, j, e)
    decreases |s| - j
  {
    if j == |s| then None
    else if s[j] == '"' then Some(j + 1)
    else if IsLineEnd(s[j]) then None
    else
      assert forall e: nat :: ClosesQuote(s, j, e) ==> ClosesQuote(s, j + 1, e) by {
        forall e: nat | ClosesQuote(s, j, e) ensures ClosesQuote(s, j + 1, e) {
          assert e - 1 != j;
        }
      }
      QuoteClose(s, j + 1)
  }

  /** At most one place closes a quote: the lazy match is the only one. */
  lemma ClosesQuoteUnique(s: string, j: nat, e1: nat, e2: nat)
    requires ClosesQuote(s, j, e1) && ClosesQuote(s, j, e2)
    ensures e1 == e2
  {
  }

  /**
   * `matcher.find()` for a pattern whose attempt at each offset is known:
   * the result at the first offset from `from` on where the attempt succeeds.
   */
  function FindFirst<T>(attempts: seq<Option<T>>, from: nat): Option<T>
    requires from <= |attempts|
    decreases |attempts| - from
  {
    if from == |attempts| then None
    else if attempts[from].Some? then attempts[from]
    else FindFirst(attempts, from + 1)
  }

  /** The first successful attempt is what find() reports. */
  lemma {:induction false} FindFirstLeftmost<T>(attempts: seq<Option<T>>, from: nat, p: nat)
    requires from <= p < |attempts| && attempts[p].Some?
    requires forall q :: from <= q < p ==> attempts[q].None?
    ensures FindFirst(attempts, from) == attempts[p]
    decreases p - from
  {
    if from < p {
      FindFirstLeftmost(attempts, from + 1, p);
    }
  }

  /** find() fails exactly when every attempt from `from` on fails. */
  lemma {:induction false} FindFirstNone<T>(attempts: seq<Option<T>>, from: nat)
    requires from <= |attempts|
    ensures FindFirst(attempts, from).None? <==> forall q :: from <= q < |attempts| ==> attempts[q].None?
    decreases |attempts| - from
  {
    if from < |attempts| {
      FindFirstNone(attempts, from + 1);
    }
  }

  /** What find() reports is the result of a successful attempt, with none succeeding before it. */
  lemma {:induction false} FindFirstFound<T>(attempts: seq<Option<T>>, from: nat) returns (p: nat)
    requires from <= |attempts| && FindFirst(attempts, from).Some?
    ensures from <= p < |attempts| && attempts[p] == FindFirst(attempts, from)
    ensures forall q :: from <= q < p ==> attempts[q].None?
    decreases |attempts| - from
  {
    if attempts[from].Some? {
      p := from;
    } else {
      p := FindFirstFound(attempts, from + 1);
    }
  }
}
