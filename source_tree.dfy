/**
 * The repository's `src` tree as importFromRepository sees it through
 * `File.listFiles()`, and the two depth-first searches over it: findJavaFile
 * for `<className>.java` and findFirstJavaFile for any `.java` file.
 */
module SourceTree {
  import opened Wrappers
  import opened Text

  /**
   * A directory entry. A file carries what reading it gives (None when the
   * read fails); a directory carries its listing, in the order `listFiles`
   * returns it (a listing that fails is an empty one).
   */
  datatype Entry =
    | File(name: string, content: Option<string>)
    | Dir(name: string, children: seq<Entry>)

  /** `dir.listFiles()`: the children of a directory, nothing for a file. */
  function Listing(e: Entry): seq<Entry> {
    if e.Dir? then e.children else []
  }

  /** The files under an entry, depth first, each directory's listing in order. */
  function FilesUnder(e: Entry): seq<Entry>
    decreases e
  {
    match e
    case File(_, _) => [e]
    case Dir(_, children) => FilesOf(children)
  }

  /** The files under each entry of a listing, one listing entry after the other. */
  function FilesOf(es: seq<Entry>): seq<Entry>
    decreases es
  {
    if es == [] then [] else FilesUnder(es[0]) + FilesOf(es[1..])
  }

  /** What a search looks for. */
  datatype Target =
    | Named(className: string)   // findJavaFile: a file named `<className>.java`
    | AnyJava                    // findFirstJavaFile: any name ending in `.java`

  const JavaSuffix: string := ".java"

  predicate Wanted(t: Target, name: string) {
    match t
    case Named(c) => name == c + JavaSuffix
    case AnyJava => EndsWith(name, JavaSuffix)
  }

  /** The first file of fs that the target wants. */
  function FirstWanted(fs: seq<Entry>, t: Target): Option<Entry>
    decreases |fs|
  {
    if fs == [] then None
    else if fs[0].File? && Wanted(t, fs[0].name) then Some(fs[0])
    else FirstWanted(fs[1..], t)
  }

  /** The first wanted file of two runs of files: the first run's, if it has one. */
  lemma {:induction false} FirstWantedAppend(a: seq<Entry>, b: seq<Entry>, t: Target)
    ensures FirstWanted(a + b, t) == if FirstWanted(a, t).Some? then FirstWanted(a, t) else FirstWanted(b, t)
    decreases |a|
  {
    if a == [] {
      assert a + b == b;
    } else {
      assert (a + b)[0] == a[0] && (a + b)[1..] == a[1..] + b;
      FirstWantedAppend(a[1..], b, t);
    }
  }

  /** The searches as the source writes them: each listing entry in turn, a directory searched before its next sibling. */
  method Search(dir: Entry, t: Target) returns (found: Option<Entry>)
    ensures found == FirstWanted(FilesOf(Listing(dir)), t)
    decreases dir
  {
    var files := Listing(dir);
    var i := 0;
    while i < |files|
      invariant 0 <= i <= |files|
      invariant FirstWanted(FilesOf(files[i..]), t) == FirstWanted(FilesOf(files), t)
    {
      var file := files[i];
      assert files[i..][0] == file && files[i..][1..] == files[i + 1..];
      FirstWantedAppend(FilesUnder(file), FilesOf(files[i + 1..]), t);
      if file.Dir? {
        found := Search(file, t);
        if found.Some? {
          return;
        }
      } else if Wanted(t, file.name) {
        assert FirstWanted(FilesUnder(file), t) == Some(file);
        return Some(file);
      }
      i := i + 1;
    }
    found := None;
  }

  /** findJavaFile: the first file named `<className>.java`, depth first. */
  method FindJavaFile(dir: Entry, className: string) returns (found: Option<Entry>)
    ensures found == FirstWanted(FilesOf(Listing(dir)), Named(className))
  {
    found := Search(dir, Named(className));
  }

  /** findFirstJavaFile: the first file whose name ends in `.java`, depth first. */
  method FindFirstJavaFile(dir: Entry) returns (found: Option<Entry>)
    ensures found == FirstWanted(FilesOf(Listing(dir)), AnyJava)
  {
    found := Search(dir, AnyJava);
  }

  /** A wanted file with none before it is what the search reports. */
  lemma {:induction false} FirstWantedAt(fs: seq<Entry>, t: Target, i: nat)
    requires i < |fs| && fs[i].File? && Wanted(t, fs[i].name)
    requires forall k :: 0 <= k < i ==> !(fs[k].File? && Wanted(t, fs[k].name))
    ensures FirstWanted(fs, t) == Some(fs[i])
    decreases i
  {
    if i > 0 {
      FirstWantedAt(fs[1..], t, i - 1);
    }
  }

  /** The search finds nothing exactly when no file is wanted. */
  lemma {:induction false} FirstWantedNone(fs: seq<Entry>, t: Target)
    ensures FirstWanted(fs, t).None? <==> forall k :: 0 <= k < |fs| ==> !(fs[k].File? && Wanted(t, fs[k].name))
    decreases |fs|
  {
    if fs != [] {
      FirstWantedNone(fs[1..], t);
      assert forall k :: 1 <= k < |fs| ==> fs[k] == fs[1..][k - 1];
    }
  }

  /** What a search reports is a wanted file of the run with no wanted file before it. */
  lemma {:induction false} FirstWantedIsWanted(fs: seq<Entry>, t: Target) returns (i: nat)
    requires FirstWanted(fs, t).Some?
    ensures i < |fs| && fs[i] == FirstWanted(fs, t).value && fs[i].File? && Wanted(t, fs[i].name)
    ensures forall k :: 0 <= k < i ==> !(fs[k].File? && Wanted(t, fs[k].name))
    decreases |fs|
  {
    if fs[0].File? && Wanted(t, fs[0].name) {
      i := 0;
    } else {
      var j := FirstWantedIsWanted(fs[1..], t);
      i := j + 1;
      assert forall k :: 1 <= k < i ==> fs[k] == fs[1..][k - 1];
    }
  }

  /** Directory entries are only ever searched, never reported: the run holds files only. */
  lemma {:induction false} FilesOfAreFiles(es: seq<Entry>)
    ensures forall f :: f in FilesOf(es) ==> f.File?
    decreases es
  {
    if es != [] {
      FilesUnderAreFiles(es[0]);
      FilesOfAreFiles(es[1..]);
    }
  }

  lemma {:induction false} FilesUnderAreFiles(e: Entry)
    ensures forall f :: f in FilesUnder(e) ==> f.File?
    decreases e
  {
    if e.Dir? {
      FilesOfAreFiles(e.children);
    }
  }

  /** The file listing of two runs of entries is the first run's files, then the second's. */
  lemma {:induction false} FilesOfAppend(a: seq<Entry>, b: seq<Entry>)
    ensures FilesOf(a + b) == FilesOf(a) + FilesOf(b)
    decreases |a|
  {
    if a == [] {
      assert a + b == b;
    } else {
      assert (a + b)[0] == a[0] && (a + b)[1..] == a[1..] + b;
      FilesOfAppend(a[1..], b);
    }
  }

  /** A tree with a file named `<className>.java` also has a first `.java` file. */
  lemma {:induction false} NamedFoundImpliesAnyFound(fs: seq<Entry>, c: string)
    requires FirstWanted(fs, Named(c)).Some?
    ensures FirstWanted(fs, AnyJava).Some?
    decreases |fs|
  {
    if fs[0].File? && Wanted(Named(c), fs[0].name) {
      assert fs[0].name[|fs[0].name| - |JavaSuffix|..] == JavaSuffix;
    } else {
      NamedFoundImpliesAnyFound(fs[1..], c);
      FirstWantedAppend([fs[0]], fs[1..], AnyJava);
      assert [fs[0]] + fs[1..] == fs;
    }
  }

  /** A file in the top directory is found before anything in a later sibling directory. */
  lemma LaterSiblingsAfter(first: Entry, rest: seq<Entry>, t: Target)
    requires first.File? && Wanted(t, first.name)
    ensures FirstWanted(FilesOf([first] + rest), t) == Some(first)
  {
    assert ([first] + rest)[0] == first && ([first] + rest)[1..] == rest;
    FirstWantedAppend([first], FilesOf(rest), t);
  }
}
