/**
 * The java.lang.String operations the importer relies on, as functions on
 * sequences of characters: startsWith, endsWith, contains, trim, replace,
 * lastIndexOf, toLowerCase (ASCII letters only) and split around one
 * character.
 */
module Text {

  /** `s.startsWith(p)` */
  predicate StartsWith(s: string, p: string) {
    |p| <= |s| && s[..|p|] == p
  }

  /** `s.endsWith(p)` */
  predicate EndsWith(s: string, p: string) {
    |p| <= |s| && s[|s| - |p|..] == p
  }

  /** `s.contains(p)`: p occurs in s at some offset. */
  predicate Contains(s: string, p: string)
    decreases |s|
  {
    StartsWith(s, p) || (s != [] && Contains(s[1..], p))
  }

  /** A character `String.trim` strips: every code point up to U+0020. */
  predicate IsTrimmable(c: char) {
    c <= ' '
  }

  /** Where trim's forward scan from offset i stops: the first character it keeps, or the end. */
  function KeptFrom(s: string, i: nat): (j: nat)
    requires i <= |s|
    ensures i <= j <= |s|
    ensures forall k :: i <= k < j ==> IsTrimmable(s[k])
    ensures j == |s| || !IsTrimmable(s[j])
    decreases |s| - i
  {
    if i < |s| && IsTrimmable(s[i]) then KeptFrom(s, i + 1) else i
  }

  /** Where trim's backward scan from offset j, down to lo, stops: just past the last character it keeps. */
  function KeptTo(s: string, lo: nat, j: nat): (e: nat)
    requires lo <= j <= |s|
    ensures lo <= e <= j
    ensures forall k :: e <= k < j ==> IsTrimmable(s[k])
    ensures e == lo || !IsTrimmable(s[e - 1])
    decreases j
  {
    if lo < j && IsTrimmable(s[j - 1]) then KeptTo(s, lo, j - 1) else j
  }

  /** `s.trim()`: the infix left after stripping trimmable characters at both ends. */
  function Trim(s: string): (r: string)
    ensures |r| <= |s|
    ensures r == [] || (!IsTrimmable(r[0]) && !IsTrimmable(r[|r| - 1]))
    ensures (forall c :: c in s ==> IsTrimmable(c)) <==> r == []
    ensures forall c :: c in r ==> c in s
  {
    var a := KeptFrom(s, 0);
    var b := KeptTo(s, a, |s|);
    assert forall k :: 0 <= k < b - a ==> s[a..b][k] == s[a + k];
    assert a < |s| ==> a < b;
    s[a..b]
  }

  /** A text with nothing to trim is its own trim. */
  lemma TrimNoop(s: string)
    requires s == [] || (!IsTrimmable(s[0]) && !IsTrimmable(s[|s| - 1]))
    ensures Trim(s) == s
  {
    assert KeptFrom(s, 0) == 0;
  }

  /** The trimmed text is the infix of s between two runs of trimmable characters, one at each end. */
  lemma TrimInfix(s: string) returns (a: nat, b: nat)
    ensures a <= b <= |s| && Trim(s) == s[a..b]
    ensures forall k :: 0 <= k < a ==> IsTrimmable(s[k])
    ensures forall k :: b <= k < |s| ==> IsTrimmable(s[k])
  {
    a := KeptFrom(s, 0);
    b := KeptTo(s, a, |s|);
  }

  /** Trimming a text that ends in a kept character keeps its tail from any kept character on. */
  lemma TrimKeepsEnd(s: string, m: nat) returns (a: nat)
    requires m < |s| && !IsTrimmable(s[m]) && !IsTrimmable(s[|s| - 1])
    ensures a <= m && Trim(s) == s[a..]
  {
    var b;
    a, b := TrimInfix(s);
  }

  /** A leading blank goes. */
  lemma TrimAfterBlank(x: string)
    requires x != [] && !IsTrimmable(x[0]) && !IsTrimmable(x[|x| - 1])
    ensures Trim([' '] + x) == x
  {
    var s := [' '] + x;
    var a := TrimKeepsEnd(s, 1);
    assert Trim(s)[0] == s[a];
    assert s[1..] == x;
  }

  /**
   * `s.replace(pat, rep)` for a non-empty pat: every occurrence, found left to
   * right without overlap, is replaced.
   */
  function Replace(s: string, pat: string, rep: string): (r: string)
    requires pat != []
    ensures forall c :: c in r ==> c in s || c in rep
    decreases |s|
  {
    if |s| < |pat| then s
    else if s[..|pat|] == pat then rep + Replace(s[|pat|..], pat, rep)
    else [s[0]] + Replace(s[1..], pat, rep)
  }

  /** A text that does not contain the pattern is left as it is. */
  lemma {:induction false} ReplaceAbsent(s: string, pat: string, rep: string)
    requires pat != [] && !Contains(s, pat)
    ensures Replace(s, pat, rep) == s
    decreases |s|
  {
    if |s| >= |pat| {
      assert !StartsWith(s, pat);
      ReplaceAbsent(s[1..], pat, rep);
      assert [s[0]] + s[1..] == s;
    }
  }

  /**
   * At the first occurrence: the text before it is kept, the occurrence becomes
   * rep, and the search resumes after it. The first occurrence is the one no
   * earlier occurrence overlaps, that is, none starts inside x.
   */
  lemma {:induction false} ReplaceFirst(x: string, rest: string, pat: string, rep: string)
    requires pat != [] && !Contains(x + pat[..|pat| - 1], pat)
    ensures Replace(x + pat + rest, pat, rep) == x + rep + Replace(rest, pat, rep)
    decreases |x|
  {
    if x == [] {
      ReplaceAtStart(rest, pat, rep);
      assert x + pat + rest == pat + rest;
    } else {
      NoOccurrenceTail(x, pat);
      ReplaceFirst(x[1..], rest, pat, rep);
      ReplaceKeepsFirst(x, rest, pat, rep);
    }
  }

  /** One step of ReplaceFirst: x's first character is kept in front of what x[1..] gives. */
  lemma ReplaceKeepsFirst(x: string, rest: string, pat: string, rep: string)
    requires x != [] && pat != [] && !StartsWith(x + pat[..|pat| - 1], pat)
    requires Replace(x[1..] + pat + rest, pat, rep) == x[1..] + rep + Replace(rest, pat, rep)
    ensures Replace(x + pat + rest, pat, rep) == x + rep + Replace(rest, pat, rep)
  {
    ReplaceSkipStep(x, rest, pat, rep);
    ConsTail(x, rep, Replace(rest, pat, rep));
  }

  /** With no occurrence starting inside x, none starts at x's first character or inside x[1..]. */
  lemma NoOccurrenceTail(x: string, pat: string)
    requires x != [] && pat != [] && !Contains(x + pat[..|pat| - 1], pat)
    ensures !StartsWith(x + pat[..|pat| - 1], pat) && !Contains(x[1..] + pat[..|pat| - 1], pat)
  {
    var z := pat[..|pat| - 1];
    NotContainsTail(x + z, pat);
    TailOfAppend(x, z);
  }

  lemma NotContainsTail(y: string, pat: string)
    requires y != [] && !Contains(y, pat)
    ensures !StartsWith(y, pat) && !Contains(y[1..], pat)
  {
  }

  lemma TailOfAppend(x: string, z: string)
    requires x != []
    ensures (x + z)[1..] == x[1..] + z
  {
  }

  lemma ConsTail(x: string, a: string, b: string)
    requires x != []
    ensures [x[0]] + (x[1..] + a + b) == x + a + b
  {
    assert x == [x[0]] + x[1..];
  }

  /** An occurrence at the start becomes rep. */
  lemma ReplaceAtStart(rest: string, pat: string, rep: string)
    requires pat != []
    ensures Replace(pat + rest, pat, rep) == rep + Replace(rest, pat, rep)
  {
    var s := pat + rest;
    assert s[..|pat|] == pat && s[|pat|..] == rest;
  }

  /** With no occurrence starting at x's first character, that character is kept. */
  lemma ReplaceSkipStep(x: string, rest: string, pat: string, rep: string)
    requires x != [] && pat != [] && !StartsWith(x + pat[..|pat| - 1], pat)
    ensures Replace(x + pat + rest, pat, rep) == [x[0]] + Replace(x[1..] + pat + rest, pat, rep)
  {
    var s, y := x + pat + rest, x + pat[..|pat| - 1];
    assert s[..|pat|] == y[..|pat|] by {
      forall k | 0 <= k < |pat| ensures s[k] == y[k] {
        if k >= |x| {
          assert s[k] == pat[k - |x|] && y[k] == pat[..|pat| - 1][k - |x|];
        }
      }
    }
    assert s[0] == x[0] && s[1..] == x[1..] + pat + rest;
  }

  /** A two-character pattern at the start is replaced. */
  lemma PairHit(s: string, pat: string, rep: string)
    requires |pat| == 2 && |s| >= 2 && s[0] == pat[0] && s[1] == pat[1]
    ensures Replace(s, pat, rep) == rep + Replace(s[2..], pat, rep)
  {
    assert s[..2] == pat;
  }

  /** Without a two-character pattern at the start, the first character is kept. */
  lemma PairMiss(s: string, pat: string, rep: string)
    requires |pat| == 2 && s != [] && (|s| < 2 || s[0] != pat[0] || s[1] != pat[1])
    ensures Replace(s, pat, rep) == [s[0]] + Replace(s[1..], pat, rep)
  {
    if |s| < 2 {
      assert s == [s[0]] && s[1..] == [];
    } else {
      assert s[..2] != pat by {
        assert s[..2][0] == s[0] && s[..2][1] == s[1];
      }
    }
  }

  /** A pattern whose first character does not occur in s is not contained in s. */
  lemma {:induction false} NotContainsFirst(s: string, p: string)
    requires p != [] && p[0] !in s
    ensures !Contains(s, p)
    decreases |s|
  {
    if s != [] {
      assert !StartsWith(s, p) by {
        if |p| <= |s| {
          assert s[..|p|][0] == s[0];
        }
      }
      NotContainsFirst(s[1..], p);
    }
  }

  /** A pattern whose first two characters stand together nowhere it could start is not contained. */
  lemma {:induction false} NotContainsPair(s: string, p: string)
    requires |p| >= 2 && forall k :: 0 <= k && k + |p| <= |s| ==> s[k] != p[0] || s[k + 1] != p[1]
    ensures !Contains(s, p)
    decreases |s|
  {
    if s != [] {
      assert !StartsWith(s, p) by {
        if |p| <= |s| {
          assert s[..|p|][0] == s[0] && s[..|p|][1] == s[1];
        }
      }
      assert forall k :: 0 <= k < |s| - 1 ==> s[1..][k] == s[k + 1];
      NotContainsPair(s[1..], p);
    }
  }

  /** Replacing a single character removes it, unless the replacement brings it back. */
  lemma {:induction false} ReplaceCharRemoves(s: string, c: char, rep: string)
    requires c !in rep
    ensures c !in Replace(s, [c], rep)
    decreases |s|
  {
    if |s| >= 1 {
      ReplaceCharRemoves(s[1..], c, rep);
    }
  }

  /** Replacing a single character distributes over concatenation. */
  lemma {:induction false} ReplaceCharAppend(a: string, b: string, c: char, rep: string)
    ensures Replace(a + b, [c], rep) == Replace(a, [c], rep) + Replace(b, [c], rep)
    decreases |a|
  {
    if a == [] {
      assert a + b == b;
    } else {
      var ab := a + b;
      var head := if a[0] == c then rep else [a[0]];
      assert ab[0] == a[0] && ab[1..] == a[1..] + b;
      ReplaceCharStep(ab, c, rep);
      ReplaceCharStep(a, c, rep);
      ReplaceCharAppend(a[1..], b, c, rep);
      calc {
        Replace(ab, [c], rep);
        head + Replace(a[1..] + b, [c], rep);
        head + (Replace(a[1..], [c], rep) + Replace(b, [c], rep));
        (head + Replace(a[1..], [c], rep)) + Replace(b, [c], rep);
        Replace(a, [c], rep) + Replace(b, [c], rep);
      }
    }
  }

  /** One step of replacing a single character: the first character, replaced or kept, then the rest. */
  lemma ReplaceCharStep(s: string, c: char, rep: string)
    requires s != []
    ensures Replace(s, [c], rep) == (if s[0] == c then rep else [s[0]]) + Replace(s[1..], [c], rep)
  {
    assert s[..1] == [s[0]];
  }

  /** Reference definition: s without any occurrence of c. */
  function Strip(s: string, c: char): (r: string)
    ensures forall x :: x in r <==> x in s && x != c
    decreases |s|
  {
    if s == [] then [] else (if s[0] == c then [] else [s[0]]) + Strip(s[1..], c)
  }

  /** Replacing a single character by nothing deletes it and keeps everything else in order. */
  lemma {:induction false} ReplaceCharDeletes(s: string, c: char)
    ensures Replace(s, [c], "") == Strip(s, c)
    decreases |s|
  {
    if s != [] {
      ReplaceCharStep(s, c, "");
      ReplaceCharDeletes(s[1..], c);
    }
  }

  /** `s.lastIndexOf(c)`, -1 when c does not occur. */
  function LastIndexOf(s: string, c: char): (k: int)
    ensures -1 <= k < |s|
    ensures k >= 0 ==> s[k] == c
    ensures forall j :: k < j < |s| ==> s[j] != c
    decreases |s|
  {
    if s == [] then -1
    else if s[|s| - 1] == c then |s| - 1
    else LastIndexOf(s[..|s| - 1], c)
  }

  /** `Character.toLowerCase` restricted to ASCII letters. */
  function LowerAscii(c: char): char {
    if 'A' <= c <= 'Z' then (c as int + 32) as char else c
  }

  /** `s.toLowerCase()` restricted to ASCII letters. */
  function ToLowerAscii(s: string): string {
    seq(|s|, i requires 0 <= i < |s| => LowerAscii(s[i]))
  }

  /** The pieces of s between the occurrences of c, empty ones included. */
  function SplitAll(s: string, c: char): (ps: seq<string>)
    ensures |ps| >= 1
    ensures forall k :: 0 <= k < |ps| ==> c !in ps[k]
    decreases |s|
  {
    if s == [] then [""]
    else
      var rest := SplitAll(s[1..], c);
      if s[0] == c then [""] + rest
      else [[s[0]] + rest[0]] + rest[1..]
  }

  /** The pieces put back together with c between neighbours. */
  function Join(ps: seq<string>, c: char): string
    requires |ps| >= 1
    decreases |ps|
  {
    if |ps| == 1 then ps[0] else ps[0] + [c] + Join(ps[1..], c)
  }

  /** Splitting loses nothing: joining the pieces restores the text. */
  lemma {:induction false} SplitAllJoin(s: string, c: char)
    ensures Join(SplitAll(s, c), c) == s
    decreases |s|
  {
    if s != [] {
      SplitAllJoin(s[1..], c);
      var rest := SplitAll(s[1..], c);
      if s[0] != c && |rest| > 1 {
        assert rest[1..][1..] == rest[2..];
        assert Join(rest, c) == rest[0] + [c] + Join(rest[1..], c);
      }
    }
  }

  /** Without a separator there is one piece, the whole text. */
  lemma {:induction false} SplitAllNoSeparator(s: string, c: char)
    requires c !in s
    ensures SplitAll(s, c) == [s]
    decreases |s|
  {
    if s != [] {
      SplitAllNoSeparator(s[1..], c);
      assert [s[0]] + s[1..] == s;
    }
  }

  /** Splitting at one separator splits each side. */
  lemma {:induction false} SplitAllAround(a: string, b: string, c: char)
    ensures SplitAll(a + [c] + b, c) == SplitAll(a, c) + SplitAll(b, c)
    decreases |a|
  {
    if a == [] {
      assert a + [c] + b == [c] + b;
      assert ([c] + b)[1..] == b;
    } else {
      assert (a + [c] + b)[0] == a[0];
      assert (a + [c] + b)[1..] == a[1..] + [c] + b;
      SplitAllAround(a[1..], b, c);
    }
  }

  /** A text that does not end in the separator has a non-empty last piece. */
  lemma {:induction false} SplitAllLast(s: string, c: char)
    requires s != [] && s[|s| - 1] != c
    ensures var ps := SplitAll(s, c); ps[|ps| - 1] != ""
    decreases |s|
  {
    if |s| > 1 {
      assert s[1..][|s[1..]| - 1] == s[|s| - 1];
      SplitAllLast(s[1..], c);
    }
  }

  function DropTrailingEmpty(ps: seq<string>): (r: seq<string>)
    ensures |r| <= |ps|
    ensures r == ps[..|r|]
    ensures r == [] || r[|r| - 1] != ""
    ensures forall k :: |r| <= k < |ps| ==> ps[k] == ""
    decreases |ps|
  {
    if ps != [] && ps[|ps| - 1] == "" then DropTrailingEmpty(ps[..|ps| - 1]) else ps
  }

  /**
   * `s.split(c)` for a one-character pattern: the text itself when c does not
   * occur, otherwise the pieces without the empty ones at the end.
   */
  function JavaSplit(s: string, c: char): seq<string> {
    if c !in s then [s] else DropTrailingEmpty(SplitAll(s, c))
  }
}
