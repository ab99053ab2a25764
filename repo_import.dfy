/**
 * importFromRepository: the record an imported GitHub Classroom repository
 * becomes. The experiment number and title come from the README, the run
 * command, input and expected output from the autograding file, and the
 * code from the Java file the run command names (or else the first Java
 * file under `src`).
 */
module RepoImport {
  import opened Wrappers
  import opened Text
  import opened JavaRegex
  import opened ReadmeScan
  import opened Autograding
  import opened SourceTree

  /**
   * What the import reads from the repository directory. A README is the
   * lines it reads as (None when the file does not exist); the autograding
   * file is its text (None when it does not exist or cannot be read); `src`
   * is the entry of that name, if there is one.
   */
  datatype Repo = Repo(
    readmeUpper: Option<seq<string>>,   // README.md
    readmeLower: Option<seq<string>>,   // readme.md
    autograding: Option<string>,        // .github/classroom/autograding.json
    src: Option<Entry>)

  /** The experiment as saveExperimentToDb receives it; the date is the caller's. */
  datatype Record = Record(expNo: string, title: string, aim: string, code: string, input: string, output: string)

  const NoSrcFolder: string := "// Could not find 'src' folder or .java files."
  const NoMainFile: string := "// Could not find the main Java file in the src directory."
  const ReadError: string := "// Error reading Java file."
  const AimPrefix: string := "To implement "

  /** README.md, or readme.md when README.md does not exist. */
  function ReadmeLines(repo: Repo): Option<seq<string>> {
    if repo.readmeUpper.Some? then repo.readmeUpper else repo.readmeLower
  }

  function DigitChar(d: nat): (c: char)
    requires d < 10
    ensures IsDigit(c)
  {
    ('0' as int + d) as char
  }

  /** `String.valueOf(n)` for a natural number. */
  function NatToDecimal(n: nat): (r: string)
    ensures r != [] && forall k :: 0 <= k < |r| ==> IsDigit(r[k])
    ensures |r| > 1 ==> r[0] != '0'
    decreases n
  {
    if n < 10 then [DigitChar(n)] else NatToDecimal(n / 10) + [DigitChar(n % 10)]
  }

  /** The number a string of decimal digits denotes. */
  function DecimalValue(s: string): nat
    requires forall k :: 0 <= k < |s| ==> IsDigit(s[k])
    decreases |s|
  {
    if s == [] then 0
    else
      assert IsDigit(s[|s| - 1]);
      DecimalValue(s[..|s| - 1]) * 10 + (s[|s| - 1] as int - '0' as int)
  }

  /** The decimal text reads back as the number it was made from. */
  lemma {:induction false} DecimalRoundTrip(n: nat)
    ensures DecimalValue(NatToDecimal(n)) == n
    decreases n
  {
    var r := NatToDecimal(n);
    if n >= 10 {
      DecimalRoundTrip(n / 10);
      assert r[..|r| - 1] == NatToDecimal(n / 10);
    }
  }

  /** `runCmd.trim().split(" ")`: the words of the trimmed command, which always has a last one. */
  function CommandWords(runCmd: string): (parts: seq<string>)
    ensures |parts| >= 1
    ensures forall k :: 0 <= k < |parts| ==> ' ' !in parts[k]
    ensures Join(parts, ' ') == Trim(runCmd)
  {
    var t := Trim(runCmd);
    if ' ' !in t then [t]
    else
      var ps := SplitAll(t, ' ');
      SplitAllLast(t, ' ');
      SplitAllJoin(t, ' ');
      assert DropTrailingEmpty(ps) == ps by {
        var r := DropTrailingEmpty(ps);
        assert |r| == |ps| && ps[..|ps|] == ps;
      }
      DropTrailingEmpty(ps)
  }

  /**
   * The class the run command names: the class its last word names. An empty
   * run command names none.
   */
  function ClassNameOf(runCmd: string): (r: string)
    ensures '.' !in r && ' ' !in r
    ensures runCmd == "" ==> r == ""
  {
    if runCmd == "" then ""
    else
      var parts := CommandWords(runCmd);
      ClassOfWord(parts[|parts| - 1])
  }

  /**
   * The class a word names: the word without `.java`, trimmed, and cut after
   * its last dot (so `org.example.Main` names `Main`).
   */
  function ClassOfWord(word: string): (r: string)
    ensures '.' !in r
    ensures ' ' !in word ==> ' ' !in r
  {
    var name := Trim(Replace(word, JavaSuffix, ""));
    if '.' in name then name[LastIndexOf(name, '.') + 1..] else name
  }

  /** The last word of a command that is a prefix, a space and a word is that word. */
  lemma LastCommandWord(p: string, x: string)
    requires p != [] && !IsTrimmable(p[0])
    requires x != [] && ' ' !in x && !IsTrimmable(x[|x| - 1])
    ensures CommandWords(p + [' '] + x) == SplitAll(p, ' ') + [x]
  {
    var cmd := p + [' '] + x;
    assert cmd[0] == p[0] && cmd[|cmd| - 1] == x[|x| - 1];
    TrimNoop(cmd);
    assert cmd[|p|] == ' ';
    SplitAllAround(p, x, ' ');
    SplitAllNoSeparator(x, ' ');
    SplitAllLast(cmd, ' ');
  }

  /** The class a command names is the class its last word names. */
  lemma ClassNameOfLast(p: string, x: string)
    requires p != [] && !IsTrimmable(p[0])
    requires x != [] && ' ' !in x && !IsTrimmable(x[|x| - 1])
    ensures ClassNameOf(p + [' '] + x) == ClassOfWord(x)
  {
    LastCommandWord(p, x);
    var parts := SplitAll(p, ' ') + [x];
    assert parts[|parts| - 1] == x;
  }

  /** A word of word characters names itself. */
  lemma ClassOfPlainWord(w: string)
    requires w != [] && forall k :: 0 <= k < |w| ==> IsWordChar(w[k])
    ensures ClassOfWord(w) == w
  {
    assert '.' !in w;
    NotContainsFirst(w, JavaSuffix);
    ReplaceAbsent(w, JavaSuffix, "");
    assert !IsTrimmable(w[0]) && !IsTrimmable(w[|w| - 1]);
    TrimNoop(w);
  }

  /** A file name names the class: `Main.java` names `Main`. */
  lemma ClassOfFileName(w: string)
    requires w != [] && forall k :: 0 <= k < |w| ==> IsWordChar(w[k])
    ensures ClassOfWord(w + JavaSuffix) == w
  {
    var stem := JavaSuffix[..|JavaSuffix| - 1];
    NotContainsPair(w + stem, JavaSuffix);
    ReplaceFirst(w, "", JavaSuffix, "");
    ReplaceAbsent("", JavaSuffix, "");
    assert w + JavaSuffix + "" == w + JavaSuffix && w + "" + "" == w;
    assert '.' !in w;
    assert !IsTrimmable(w[0]) && !IsTrimmable(w[|w| - 1]);
    TrimNoop(w);
  }

  /** A qualified name names its last part: `org.example.Main` names `Main`. */
  lemma ClassOfQualifiedName(q: string, w: string)
    requires w != [] && forall k :: 0 <= k < |w| ==> IsWordChar(w[k])
    requires !Contains(q + ['.'] + w, JavaSuffix)
    ensures ClassOfWord(q + ['.'] + w) == w
  {
    var x := q + ['.'] + w;
    ReplaceAbsent(x, JavaSuffix, "");
    var k := TrimmedLastDot(q, w);
    ClassOfWordCut(x, Trim(x), k, w);
  }

  /** Trimming a qualified name keeps its last dot and what follows it. */
  lemma TrimmedLastDot(q: string, w: string) returns (k: nat)
    requires w != [] && forall k :: 0 <= k < |w| ==> IsWordChar(w[k])
    ensures var name := Trim(q + ['.'] + w);
      k < |name| && name[k] == '.' && LastIndexOf(name, '.') == k && name[k + 1..] == w
  {
    var x := q + ['.'] + w;
    assert x[|q|] == '.' && x[|x| - 1] == w[|w| - 1];
    var a := TrimKeepsEnd(x, |q|);
    var name := x[a..];
    k := |q| - a;
    assert name[k] == '.' && name[k + 1..] == w;
    LastDotAt(name, k, w);
  }

  lemma ClassOfWordCut(word: string, name: string, k: nat, w: string)
    requires Trim(Replace(word, JavaSuffix, "")) == name
    requires k < |name| && name[k] == '.' && LastIndexOf(name, '.') == k && name[k + 1..] == w
    ensures ClassOfWord(word) == w
  {
  }

  /** The last dot of a name that ends in a dot and a dot-free word is that dot. */
  lemma LastDotAt(name: string, i: nat, w: string)
    requires i < |name| && name[i] == '.' && name[i + 1..] == w
    requires forall k :: 0 <= k < |w| ==> IsWordChar(w[k])
    ensures LastIndexOf(name, '.') == i
  {
    assert '.' !in w;
  }

  /** A word-character name as the last word of a command is the class it names. */
  lemma ClassNameOfCommand(p: string, w: string)
    requires p != [] && !IsTrimmable(p[0])
    requires w != [] && forall k :: 0 <= k < |w| ==> IsWordChar(w[k])
    ensures ClassNameOf(p + [' '] + w) == w
  {
    assert ' ' !in w && !IsTrimmable(w[|w| - 1]);
    ClassNameOfLast(p, w);
    ClassOfPlainWord(w);
  }

  /** A command ending in a file name names its class: `java Main.java` names `Main`. */
  lemma ClassNameOfFile(p: string, w: string)
    requires p != [] && !IsTrimmable(p[0])
    requires w != [] && forall k :: 0 <= k < |w| ==> IsWordChar(w[k])
    ensures ClassNameOf(p + [' '] + (w + JavaSuffix)) == w
  {
    assert ' ' !in w;
    assert ' ' !in w + JavaSuffix;
    ClassNameOfLast(p, w + JavaSuffix);
    ClassOfFileName(w);
  }

  /** A command ending in a qualified name names its last part: `java org.example.Main` names `Main`. */
  lemma ClassNameOfQualified(p: string, q: string, w: string)
    requires p != [] && !IsTrimmable(p[0]) && ' ' !in q
    requires w != [] && forall k :: 0 <= k < |w| ==> IsWordChar(w[k])
    requires !Contains(q + ['.'] + w, JavaSuffix)
    ensures ClassNameOf(p + [' '] + (q + ['.'] + w)) == w
  {
    QualifiedWord(q, w);
    ClassNameOfLast(p, q + ['.'] + w);
    ClassOfQualifiedName(q, w);
  }

  lemma QualifiedWord(q: string, w: string)
    requires ' ' !in q && w != [] && forall k :: 0 <= k < |w| ==> IsWordChar(w[k])
    ensures var x := q + ['.'] + w; x != [] && ' ' !in x && !IsTrimmable(x[|x| - 1])
  {
    assert ' ' !in w && !IsTrimmable(w[|w| - 1]);
  }

  /** Three run commands and the classes they name. */
  lemma ClassNameOfFileExample()
    ensures ClassNameOf("java Main.java") == "Main"
  {
    MainIsWord();
    JavaIsKept();
    ClassNameOfFile("java", "Main");
    FileCommandSpelled();
  }

  lemma FileCommandSpelled()
    ensures "java" + [' '] + ("Main" + JavaSuffix) == "java Main.java"
  {
  }

  lemma ClassNameOfQualifiedExample()
    ensures ClassNameOf("java org.example.Main") == "Main"
  {
    QualifiedExampleParts();
    ClassNameOfQualified("java", "org.example", "Main");
    QualifiedCommandSpelled();
  }

  lemma QualifiedExampleParts()
    ensures "java" != [] && !IsTrimmable("java"[0]) && ' ' !in "org.example"
    ensures "Main" != [] && forall k :: 0 <= k < |"Main"| ==> IsWordChar("Main"[k])
    ensures !Contains("org.example" + ['.'] + "Main", JavaSuffix)
  {
    JavaIsKept();
    MainIsWord();
    PackageHasNoSpace();
    QualifiedNameHasNoSuffix();
  }

  lemma MainIsWord()
    ensures "Main" != [] && forall k :: 0 <= k < |"Main"| ==> IsWordChar("Main"[k])
  {
  }

  lemma PackageHasNoSpace()
    ensures ' ' !in "org.example"
  {
  }

  lemma QualifiedNameHasNoSuffix()
    ensures !Contains("org.example" + ['.'] + "Main", JavaSuffix)
  {
    QualifiedNameSpelled();
    SpelledNameHasNoSuffix();
  }

  lemma SpelledNameHasNoSuffix()
    ensures !Contains("org.example.Main", JavaSuffix)
  {
    NotContainsPair("org.example.Main", JavaSuffix);
  }

  lemma QualifiedNameSpelled()
    ensures "org.example" + ['.'] + "Main" == "org.example.Main"
  {
  }

  lemma QualifiedCommandSpelled()
    ensures "java" + [' '] + ("org.example" + ['.'] + "Main") == "java org.example.Main"
  {
  }

  lemma ClassNameOfCommandExample()
    ensures ClassNameOf("java Main") == "Main"
  {
    MainIsWord();
    JavaIsKept();
    ClassNameOfCommand("java", "Main");
    PlainCommandSpelled();
  }

  lemma JavaIsKept()
    ensures "java" != [] && !IsTrimmable("java"[0])
  {
  }

  lemma PlainCommandSpelled()
    ensures "java" + [' '] + "Main" == "java Main"
  {
  }

  /** The Java file the import takes: the run command's class, or else the first Java file. */
  function JavaFileFor(srcDir: Entry, runCmd: string): Option<Entry> {
    var files := FilesOf(Listing(srcDir));
    var className := ClassNameOf(runCmd);
    var named := if className != "" then FirstWanted(files, Named(className)) else None;
    if named.Some? then named else FirstWanted(files, AnyJava)
  }

  /** The code field: the Java file's text, or the message saying why there is none. */
  function CodeOf(src: Option<Entry>, runCmd: string): string {
    if src.None? || !src.value.Dir? then NoSrcFolder
    else
      match JavaFileFor(src.value, runCmd)
      case None => NoMainFile
      case Some(f) => if f.File? && f.content.Some? then f.content.value else ReadError
  }

  /** The record importFromRepository saves for a repository, with rowCount experiments already listed. */
  function Import(repo: Repo, rowCount: nat): Record {
    var (expNo, title) := NumberAndTitle(ReadmeLines(repo), NatToDecimal(rowCount + 1));
    var fields := AutogradingFields(repo.autograding);
    Record(expNo, title, AimPrefix + title, CodeOf(repo.src, fields.run), fields.input, fields.output)
  }

  /**
   * The `src` step of importFromRepository: the class name from the run
   * command, findJavaFile for it, findFirstJavaFile when that finds nothing,
   * then the chosen file's text or the message saying why there is none.
   */
  method ReadSourceCode(src: Option<Entry>, runCmd: string) returns (code: string)
    ensures code == CodeOf(src, runCmd)
  {
    code := NoSrcFolder;
    if src.Some? && src.value.Dir? {
      var srcDir := src.value;
      var className := "";
      if runCmd != "" {
        className := ClassNameOf(runCmd);
      }
      var javaFile: Option<Entry> := None;
      if className != "" {
        javaFile := FindJavaFile(srcDir, className);
      }
      if javaFile.None? {
        javaFile := FindFirstJavaFile(srcDir);
      }
      assert javaFile == JavaFileFor(srcDir, runCmd);
      if javaFile.Some? {
        if javaFile.value.File? && javaFile.value.content.Some? {
          code := javaFile.value.content.value;
        } else {
          code := ReadError;
        }
      } else {
        code := NoMainFile;
      }
    }
  }

  /**
   * importFromRepository, in the source's order: the README scan over the
   * defaults, the autograding scan, then the search for the Java file.
   */
  method ImportFromRepository(repo: Repo, rowCount: nat) returns (rec: Record)
    ensures rec == Import(repo, rowCount)
  {
    var expName := DefaultTitle;
    var expNo := NatToDecimal(rowCount + 1);
    var readme := repo.readmeUpper;
    if readme.None? {
      readme := repo.readmeLower;
    }
    if readme.Some? {
      expNo, expName := ScanReadme(readme.value, expNo);
    }
    assert readme == ReadmeLines(repo);
    assert (expNo, expName) == NumberAndTitle(readme, NatToDecimal(rowCount + 1));

    var input, output, runCmd := "", "", "";
    if repo.autograding.Some? {
      runCmd, input, output := ScanAutograding(repo.autograding.value);
    }
    assert Fields(runCmd, input, output) == AutogradingFields(repo.autograding);

    var code := ReadSourceCode(repo.src, runCmd);
    rec := Record(expNo, expName, AimPrefix + expName, code, input, output);
  }

  /** A repository with none of the three gets the next number, the default title and no code. */
  lemma EmptyRepository(rowCount: nat)
    ensures Import(Repo(None, None, None, None), rowCount) ==
      Record(NatToDecimal(rowCount + 1), DefaultTitle, AimPrefix + DefaultTitle, NoSrcFolder, "", "")
  {
  }

  /** The experiment number is always a decimal number: the README's digits or the next row's number. */
  lemma ExpNoIsDecimal(repo: Repo, rowCount: nat)
    ensures var no := Import(repo, rowCount).expNo;
      no != [] && forall k :: 0 <= k < |no| ==> IsDigit(no[k])
  {
    var lines := ReadmeLines(repo);
    if lines.Some? && ReadmeHeading(lines.value).Numbered? {
      var i := ReadmeHeadingLine(lines.value);
      NumberedHeading(lines.value[i]);
    }
  }

  /** readme.md is read only when README.md does not exist. */
  lemma ReadmeFallback(repo: Repo, rowCount: nat, other: Option<seq<string>>)
    ensures repo.readmeUpper.Some? ==> Import(repo.(readmeLower := other), rowCount) == Import(repo, rowCount)
    ensures repo.readmeUpper.None? ==> Import(repo, rowCount) == Import(repo.(readmeUpper := repo.readmeLower), rowCount)
  {
  }

  /** Without a README that names a number, the experiment takes the next row's number. */
  lemma NextRowNumber(repo: Repo, rowCount: nat)
    requires ReadmeLines(repo).None? || !ReadmeHeading(ReadmeLines(repo).value).Numbered?
    ensures DecimalValue(Import(repo, rowCount).expNo) == rowCount + 1
  {
    DecimalRoundTrip(rowCount + 1);
  }

  /** The input and the expected output never hold a quote. */
  lemma InputOutputUnquoted(repo: Repo, rowCount: nat)
    ensures '"' !in Import(repo, rowCount).input && '"' !in Import(repo, rowCount).output
  {
    if repo.autograding.Some? {
      FieldsHaveNoQuote(JavaSplit(repo.autograding.value, '{'));
    }
  }

  /** Without a `src` directory the code is the missing-folder message, whatever else the repository holds. */
  lemma NoSrcDirectory(repo: Repo, rowCount: nat)
    requires repo.src.None? || repo.src.value.File?
    ensures Import(repo, rowCount).code == NoSrcFolder
  {
  }

  /** A `src` directory without any `.java` file gives the missing-file message. */
  lemma NoJavaFile(srcDir: Entry, runCmd: string)
    requires srcDir.Dir?
    requires forall k :: 0 <= k < |FilesOf(srcDir.children)| ==> !EndsWith(FilesOf(srcDir.children)[k].name, JavaSuffix)
    ensures CodeOf(Some(srcDir), runCmd) == NoMainFile
  {
    var files := FilesOf(srcDir.children);
    FirstWantedNone(files, AnyJava);
    var className := ClassNameOf(runCmd);
    if className != "" && FirstWanted(files, Named(className)).Some? {
      NamedFoundImpliesAnyFound(files, className);
    }
  }

  /**
   * The file the run command names is taken first: the first of that name,
   * depth first, and its text becomes the code.
   */
  lemma NamedFileTaken(srcDir: Entry, runCmd: string, i: nat)
    requires srcDir.Dir? && ClassNameOf(runCmd) != ""
    requires var files := FilesOf(srcDir.children);
      i < |files| && files[i].File? && files[i].content.Some? &&
      files[i].name == ClassNameOf(runCmd) + JavaSuffix &&
      forall k :: 0 <= k < i ==> !(files[k].File? && files[k].name == ClassNameOf(runCmd) + JavaSuffix)
    ensures CodeOf(Some(srcDir), runCmd) == FilesOf(srcDir.children)[i].content.value
  {
    FirstWantedAt(FilesOf(srcDir.children), Named(ClassNameOf(runCmd)), i);
  }

  /** With no file of the named class, the first `.java` file is taken instead. */
  lemma FirstJavaFileTaken(srcDir: Entry, runCmd: string, i: nat)
    requires srcDir.Dir?
    requires var files := FilesOf(srcDir.children);
      ClassNameOf(runCmd) == "" ||
      forall k :: 0 <= k < |files| ==> !(files[k].File? && files[k].name == ClassNameOf(runCmd) + JavaSuffix)
    requires var files := FilesOf(srcDir.children);
      i < |files| && files[i].File? && files[i].content.Some? && EndsWith(files[i].name, JavaSuffix) &&
      forall k :: 0 <= k < i ==> !(files[k].File? && EndsWith(files[k].name, JavaSuffix))
    ensures CodeOf(Some(srcDir), runCmd) == FilesOf(srcDir.children)[i].content.value
  {
    var files := FilesOf(srcDir.children);
    if ClassNameOf(runCmd) != "" {
      FirstWantedNone(files, Named(ClassNameOf(runCmd)));
    }
    FirstWantedAt(files, AnyJava, i);
  }

  /** The chosen file failing to read gives the read-error message. */
  lemma UnreadableFile(srcDir: Entry, runCmd: string, name: string)
    requires srcDir.Dir? && JavaFileFor(srcDir, runCmd) == Some(File(name, None))
    ensures CodeOf(Some(srcDir), runCmd) == ReadError
  {
  }

  /** The code is one of the three messages or the text of a `.java` file under `src`. */
  lemma CodeIsJavaText(src: Option<Entry>, runCmd: string)
    ensures var code := CodeOf(src, runCmd);
      code == NoSrcFolder || code == NoMainFile || code == ReadError ||
      exists f :: f in FilesOf(Listing(src.value)) && f.File? && EndsWith(f.name, JavaSuffix) && f.content == Some(code)
  {
    if src.Some? && src.value.Dir? && JavaFileFor(src.value, runCmd).Some? {
      var f := ChosenFileIsJava(src.value, runCmd);
      if f.content.Some? {
        assert CodeOf(src, runCmd) == f.content.value;
      }
    }
  }

  /** The file the import takes is a `.java` file under `src`. */
  lemma ChosenFileIsJava(srcDir: Entry, runCmd: string) returns (f: Entry)
    requires JavaFileFor(srcDir, runCmd).Some?
    ensures f == JavaFileFor(srcDir, runCmd).value
    ensures f in FilesOf(Listing(srcDir)) && f.File? && EndsWith(f.name, JavaSuffix)
  {
    var files := FilesOf(Listing(srcDir));
    var className := ClassNameOf(runCmd);
    if className != "" && FirstWanted(files, Named(className)).Some? {
      var i := FirstWantedIsWanted(files, Named(className));
      f := files[i];
      assert f.name[|f.name| - |JavaSuffix|..] == JavaSuffix;
    } else {
      var i := FirstWantedIsWanted(files, AnyJava);
      f := files[i];
    }
  }
}
