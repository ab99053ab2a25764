/**
 * The text clean-up applied to every multi-line field before it is stored
 * and to code and output before they are typeset: every no-break space
 * becomes a space, then every tab becomes four spaces.
 */
module Sanitise {
  import opened Text

  /** U+00A0, the no-break space. */
  const NoBreakSpace: char := '\U{00A0}'

  const FourSpaces: string := "    "

  function Sanitise(s: string): string {
    Replace(Replace(s, [NoBreakSpace], " "), ['\t'], FourSpaces)
  }

  /** What one character becomes. */
  function Expand(c: char): string {
    if c == NoBreakSpace then " " else if c == '\t' then FourSpaces else [c]
  }

  /** Reference definition: the expansions of the characters, in order. */
  function ExpandAll(s: string): string
    decreases |s|
  {
    if s == [] then [] else Expand(s[0]) + ExpandAll(s[1..])
  }

  lemma ExpandAllAppend(a: string, b: string)
    ensures ExpandAll(a + b) == ExpandAll(a) + ExpandAll(b)
    decreases |a|
  {
    if a == [] {
      assert a + b == b;
    } else {
      assert (a + b)[1..] == a[1..] + b;
      ExpandAllAppend(a[1..], b);
    }
  }

  /** Sanitising works character by character: it is the reference expansion. */
  lemma {:induction false} SanitiseIsExpansion(s: string)
    ensures Sanitise(s) == ExpandAll(s)
    decreases |s|
  {
    if s != [] {
      var c, rest := s[0], s[1..];
      assert s == [c] + rest;
      SanitiseIsExpansion(rest);
      ReplaceCharAppend([c], rest, NoBreakSpace, " ");
      var once := Replace([c], [NoBreakSpace], " ");
      ReplaceCharAppend(once, Replace(rest, [NoBreakSpace], " "), '\t', FourSpaces);
      if c == NoBreakSpace {
        assert once == " " + Replace([], [NoBreakSpace], " ");
        assert Replace(once, ['\t'], FourSpaces) == " " by {
          assert once == " ";
          NotContainsFirst(" ", ['\t']);
          ReplaceAbsent(" ", ['\t'], FourSpaces);
        }
      } else {
        assert once == [c] + Replace([], [NoBreakSpace], " ");
        if c == '\t' {
          assert Replace([c], ['\t'], FourSpaces) == FourSpaces + Replace([], ['\t'], FourSpaces);
        } else {
          assert Replace([c], ['\t'], FourSpaces) == [c] + Replace([], ['\t'], FourSpaces);
        }
      }
    }
  }

  /** The result holds neither a no-break space nor a tab. */
  lemma SanitiseClean(s: string)
    ensures NoBreakSpace !in Sanitise(s) && '\t' !in Sanitise(s)
  {
    var once := Replace(s, [NoBreakSpace], " ");
    ReplaceCharRemoves(s, NoBreakSpace, " ");
    ReplaceCharRemoves(once, '\t', FourSpaces);
  }

  /** Every other character survives, and only spaces are added. */
  lemma SanitiseKeeps(s: string)
    ensures forall c :: c in s && c != NoBreakSpace && c != '\t' ==> c in Sanitise(s)
    ensures forall c :: c in Sanitise(s) ==> c in s || c == ' '
  {
    SanitiseIsExpansion(s);
    ExpandAllKeeps(s);
  }

  lemma {:induction false} ExpandAllKeeps(s: string)
    ensures forall c :: c in s && c != NoBreakSpace && c != '\t' ==> c in ExpandAll(s)
    ensures forall c :: c in ExpandAll(s) ==> c in s || c == ' '
    decreases |s|
  {
    if s != [] {
      ExpandAllKeeps(s[1..]);
      assert s == [s[0]] + s[1..];
    }
  }

  /** Sanitising twice is sanitising once. */
  lemma SanitiseIdempotent(s: string)
    ensures Sanitise(Sanitise(s)) == Sanitise(s)
  {
    var t := Sanitise(s);
    SanitiseClean(s);
    var once := Replace(t, [NoBreakSpace], " ");
    NotContainsFirst(t, [NoBreakSpace]);
    ReplaceAbsent(t, [NoBreakSpace], " ");
    NotContainsFirst(t, ['\t']);
    ReplaceAbsent(t, ['\t'], FourSpaces);
  }
}
