# Lab record generator: repository import and code highlighting

This project models two pieces of `LabRecordGenerator`, a desktop tool
that turns programming-lab experiments into PDF lab records.

1. **The import of a GitHub Classroom repository** (`importFromRepository`).
   The tool reads three things from the repository:
   - the README, for the experiment's number and title;
   - `.github/classroom/autograding.json`, for the run command, the input
     and the expected output;
   - the `src` tree, for the Java file the run command names, or else the
     first Java file.

   The result is the record handed to `saveExperimentToDb`. Its aim is
   "To implement " followed by the title.
2. **The syntax highlighting of a record's code block**
   (`addHighlightedCodeBlock`). The code is cleaned: no-break spaces become
   spaces and tabs become four spaces. It is then cut into chunks by
   `JAVA_PATTERN`. Each chunk is plain, a comment, a string or a keyword.

## Modules

| Module | Models |
|---|---|
| `Wrappers` | The `Option` datatype. |
| `Text` | The `java.lang.String` operations the code uses: `startsWith`, `endsWith`, `contains`, `trim`, `replace`, `lastIndexOf`, ASCII `toLowerCase` and `split` around one character. |
| `JavaRegex` | The `java.util.regex` behaviour the patterns use: `\w`, `\d`, `\s`, `\b`, a `.` that stops at a line end, greedy runs, the lazy `.*?"`, and `find()` as the first success in a row of attempts. |
| `Sanitise` | The clean-up of no-break spaces and tabs. |
| `Highlighter` | `JAVA_PATTERN` and the chunking loop, as the method `HighlightedChunks`. |
| `HighlighterFacts` | What the pattern and the loop amount to. |
| `ReadmeScan` | The README loop and its heading pattern `(?i)#\s*Experiment\s+(\d+)[\s:\-]*(.*)`, tried at one offset in three layers: `HeadingAt` (the `#` and spaces), `WordAt` (the word in any case), `NumberAt` (the spaces, number and title). `HeadingSpans` states a match of the pattern piece by piece. |
| `Autograding` | The split at `{`, the choice of the block, and `extractJsonValue`. `JsonSpans` states a match of the value pattern piece by piece. |
| `SourceTree` | The `src` tree as `listFiles()` shows it, and the depth-first searches `findJavaFile` and `findFirstJavaFile`. |
| `RepoImport` | `importFromRepository` as a whole. |

### HighlighterFacts in detail

- The keyword alternative matches exactly a whole identifier in the table.
- Each match is classified as the alternative it came from.
- The chunks are the one cutting of the text into:
  - plain runs that hold no match;
  - matches, each found leftmost first.
- Joined back together, the chunks give the text.

### How the filesystem is modelled

A repository is a value (`RepoImport.Repo`):
- each README is the lines it reads as, or nothing when the file is absent;
- the autograding file is its text, or nothing;
- `src` is an `Entry`: a file with its content (nothing when reading it
  fails), or a directory with its children in listing order.

The import loops are imperative methods. Each is proved equal to a
function that specifies the record (`RepoImport.Import`); the lemmas are
about that function.

### Where the code departs from what it evidently aims at

The model follows `LabRecordGenerator.java`.

- **Unterminated comments and strings.** A `/*` without a closing `*/`, or
  a `"` without a closing quote on its line, matches nothing. Its text stays
  plain; it does not become a comment or string that runs to the end.
- **Escaped quotes.** A string ends at the first quote. An escaped quote
  `\"` ends it too.
- **The keyword list.** It is the fixed list inside `JAVA_PATTERN`. The
  functions take the table as a parameter (`Highlighter.Table`), but the
  loop uses that fixed list.
- **The README file name.** It is `README.md`, or `readme.md` when that
  does not exist. No other spelling is tried.

## Model

| member | source | states |
|---|---|---|
| Highlighter.KeywordsAreWords | src/main/java/org/example/LabRecordGenerator.java:56-58 | Every word of the keyword alternative is a non-empty run of word characters. |
| Highlighter.KeywordAlternative | src/main/java/org/example/LabRecordGenerator.java:57 | When the keyword alternative succeeds at i, the match ends after i and within the text. |
| Highlighter.KeywordMatch | src/main/java/org/example/LabRecordGenerator.java:57 | `\b(...)\b` succeeds only with a non-empty match inside the text. |
| Highlighter.BlockClose | src/main/java/org/example/LabRecordGenerator.java:57 | The lazy `[\s\S]*?\*/` ends just past the first `*/` from j; when it fails, no `*/` follows j. |
| Highlighter.MatchAt | src/main/java/org/example/LabRecordGenerator.java:56-58 | A match of JAVA_PATTERN at i is non-empty and lies inside the text. |
| Highlighter.FindFrom | src/main/java/org/example/LabRecordGenerator.java:865 | `find()` from an offset reports a start at or after it, and the pattern matches there up to the reported end. |
| Highlighter.HighlightedChunks | src/main/java/org/example/LabRecordGenerator.java:851-886 | The loop builds exactly `Tokenize` of the sanitised code. A missing code gives no chunks. |
| HighlighterFacts.WordEnd | src/main/java/org/example/LabRecordGenerator.java:57 | The end of the identifier at i: word characters up to it, none at it. |
| HighlighterFacts.WordFits | src/main/java/org/example/LabRecordGenerator.java:57 | A word spelled at i with `\b` after it is exactly the identifier that starts at i (both directions). |
| HighlighterFacts.KeywordAlternativeWhole | src/main/java/org/example/LabRecordGenerator.java:57 | The alternative succeeds exactly when the whole word at i is in the table, and then it ends at the word's end, whatever the table's order. |
| HighlighterFacts.KeywordMatchWhole | src/main/java/org/example/LabRecordGenerator.java:57 | `\b(...)\b` matches exactly a whole identifier that is in the table (both directions). |
| HighlighterFacts.BlockCloseUnique | src/main/java/org/example/LabRecordGenerator.java:57 | The first `*/` after j is where the block comment ends. |
| HighlighterFacts.MatchAtCorrect | src/main/java/org/example/LabRecordGenerator.java:56-58 | JAVA_PATTERN matches s[i..e] exactly when one of the four alternatives, stated declaratively, does (both directions). |
| HighlighterFacts.ClassifyMatch | src/main/java/org/example/LabRecordGenerator.java:873-879 | The loop's test on the first characters gives a keyword match the keyword font, a string the string font, and either comment the comment font. |
| HighlighterFacts.FindFromLeftmost | src/main/java/org/example/LabRecordGenerator.java:865 | `find()` reports (p, m) exactly when nothing matches between the resume offset and p, and the pattern matches at p up to m. |
| HighlighterFacts.FindFromNone | src/main/java/org/example/LabRecordGenerator.java:865 | `find()` fails exactly when no offset from the resume point on starts a match. |
| HighlighterFacts.ConcatAppend | src/main/java/org/example/LabRecordGenerator.java:866-886 | The text of two runs of chunks is the text of the first, then that of the second. |
| HighlighterFacts.TokenizesCons | src/main/java/org/example/LabRecordGenerator.java:866-881 | A chunk that fits, in front of a valid cutting of what follows it, is a valid cutting. |
| HighlighterFacts.ChunksTokenizeLast | src/main/java/org/example/LabRecordGenerator.java:884-886 | After the last match, the remaining text as one plain chunk (or nothing) is a valid cutting. |
| HighlighterFacts.MatchTokenizes | src/main/java/org/example/LabRecordGenerator.java:870-881 | A classified match in front of a valid cutting is a valid cutting. |
| HighlighterFacts.PlainChunkFits | src/main/java/org/example/LabRecordGenerator.java:866-868 | A gap with no match in it, followed by a match or the end, may stand as a plain chunk. |
| HighlighterFacts.PlainTokenizes | src/main/java/org/example/LabRecordGenerator.java:866-868 | A plain gap with no match in it, in front of a valid cutting from its end, is a valid cutting. |
| HighlighterFacts.GapMatchTokenizes | src/main/java/org/example/LabRecordGenerator.java:866-881 | A plain gap, then a match, then a valid cutting, is a valid cutting. |
| HighlighterFacts.ChunksTokenizeMatch | src/main/java/org/example/LabRecordGenerator.java:865-882 | One turn of the loop keeps the chunks a valid cutting. |
| HighlighterFacts.ChunksTokenize | src/main/java/org/example/LabRecordGenerator.java:862-886 | The loop's chunks from any offset are a valid cutting of the rest of the text. |
| HighlighterFacts.PlainThenMatch | src/main/java/org/example/LabRecordGenerator.java:866-881 | A plain chunk that does not reach the end is followed by the match that starts where it ends. |
| HighlighterFacts.UniqueLastPlain | src/main/java/org/example/LabRecordGenerator.java:884-886 | A plain chunk that reaches the end is the loop's final chunk. |
| HighlighterFacts.UniquePlainMatch | src/main/java/org/example/LabRecordGenerator.java:866-881 | A plain gap and a match in front of the loop's own chunks are the loop's chunks. |
| HighlighterFacts.MatchThenRest | src/main/java/org/example/LabRecordGenerator.java:870-881 | A non-plain chunk of a valid cutting is the match at its offset, with the kind its first characters give. |
| HighlighterFacts.UniqueMatch | src/main/java/org/example/LabRecordGenerator.java:870-881 | A match in front of the loop's own chunks is the loop's chunks. |
| HighlighterFacts.TokenizesUnique | src/main/java/org/example/LabRecordGenerator.java:862-886 | Any valid cutting of the text is the one the loop builds. |
| HighlighterFacts.TokenizeCharacterised | src/main/java/org/example/LabRecordGenerator.java:862-886 | The loop's chunks are exactly the valid cuttings of the code (both directions). |
| HighlighterFacts.TokenizesConcat | src/main/java/org/example/LabRecordGenerator.java:866-886 | The texts of a valid cutting, joined, give the text back. |
| HighlighterFacts.TokenizeConcat | src/main/java/org/example/LabRecordGenerator.java:862-886 | The paragraph's chunks, joined, are the code exactly: nothing is lost, repeated or reordered. |
| HighlighterFacts.TokenizesShape | src/main/java/org/example/LabRecordGenerator.java:866-886 | No chunk is empty, and two plain chunks never stand next to each other. |
| HighlighterFacts.UnclosedBlockComment | src/main/java/org/example/LabRecordGenerator.java:57 | A `/*` with no `*/` after it matches nothing, so its text stays plain. |
| HighlighterFacts.UnclosedString | src/main/java/org/example/LabRecordGenerator.java:57 | A quote with no closing quote on its line matches nothing. |
| HighlighterFacts.StringIgnoresEscapes | src/main/java/org/example/LabRecordGenerator.java:57 | A string ends at the first quote on its line, even one after a backslash. |
| Sanitise.ExpandAllAppend | src/main/java/org/example/LabRecordGenerator.java:852 | The character-by-character expansion distributes over concatenation. |
| Sanitise.SanitiseIsExpansion | src/main/java/org/example/LabRecordGenerator.java:852 | The two chained replaces equal the reference: each no-break space becomes a space, each tab four spaces, everything else stays. |
| Sanitise.SanitiseClean | src/main/java/org/example/LabRecordGenerator.java:438-441 | The result holds neither a no-break space nor a tab. |
| Sanitise.SanitiseKeeps | src/main/java/org/example/LabRecordGenerator.java:900 | Every other character survives, and only spaces are added. |
| Sanitise.ExpandAllKeeps | src/main/java/org/example/LabRecordGenerator.java:852 | The reference expansion keeps every other character and adds only spaces. |
| Sanitise.SanitiseIdempotent | src/main/java/org/example/LabRecordGenerator.java:438-441 | Sanitising a sanitised text changes nothing. |
| JavaRegex.SkipWhile | src/main/java/org/example/LabRecordGenerator.java:468 | A greedy run of one class takes every matching character from i and stops at the first that does not match. |
| JavaRegex.SkipWhileUnique | src/main/java/org/example/LabRecordGenerator.java:468 | A greedy run has one end, the one the scan finds. |
| JavaRegex.RestOfLineUnique | src/main/java/org/example/LabRecordGenerator.java:57 | `.*` stops at the first line end and nowhere else. |
| JavaRegex.RestOfLine | src/main/java/org/example/LabRecordGenerator.java:57 | `.*` takes everything up to the first line end. |
| JavaRegex.QuoteClose | src/main/java/org/example/LabRecordGenerator.java:534 | The lazy `.*?"` ends at the first quote on the line; when it fails, no quote closes on the line. |
| JavaRegex.ClosesQuoteUnique | src/main/java/org/example/LabRecordGenerator.java:534 | Only one place can close the quote. |
| JavaRegex.FindFirstLeftmost | src/main/java/org/example/LabRecordGenerator.java:475 | `find()` reports the first successful attempt. |
| JavaRegex.FindFirstNone | src/main/java/org/example/LabRecordGenerator.java:475 | `find()` fails exactly when every attempt fails. |
| JavaRegex.FindFirstFound | src/main/java/org/example/LabRecordGenerator.java:475 | What `find()` reports is a successful attempt, with none succeeding before it. |
| Text.KeptFrom | src/main/java/org/example/LabRecordGenerator.java:471 | `trim`'s forward scan stops at the first character above U+0020. |
| Text.KeptTo | src/main/java/org/example/LabRecordGenerator.java:471 | `trim`'s backward scan stops just past the last character above U+0020. |
| Text.Trim | src/main/java/org/example/LabRecordGenerator.java:471-472 | The trimmed line starts and ends with a kept character; it is empty exactly when every character is trimmable; it holds only characters of the line. |
| Text.TrimInfix | src/main/java/org/example/LabRecordGenerator.java:471 | `trim` removes exactly a trimmable prefix and a trimmable suffix: the result is s[a..b], with only trimmable characters before a and from b on. |
| Text.TrimKeepsEnd | src/main/java/org/example/LabRecordGenerator.java:513 | A text whose last character is kept trims to a suffix that starts at or before any kept character. |
| Text.TrimAfterBlank | src/main/java/org/example/LabRecordGenerator.java:480 | One leading space in front of a text with kept ends is all that `trim` removes. |
| Text.TrimNoop | src/main/java/org/example/LabRecordGenerator.java:476 | A text with nothing to trim at its ends is its own trim. |
| Text.Replace | src/main/java/org/example/LabRecordGenerator.java:480 | The result holds only characters of the text or of the replacement. |
| Text.ReplaceFirst | src/main/java/org/example/LabRecordGenerator.java:513 | Non-overlapping, left to right: the first occurrence of the pattern is replaced and the replacing goes on after it, never inside it. |
| Text.ReplaceAtStart | src/main/java/org/example/LabRecordGenerator.java:536 | An occurrence at the start is replaced, then the rest is handled. |
| Text.PairHit | src/main/java/org/example/LabRecordGenerator.java:536 | A two-character pattern at the start is replaced, then the rest is handled. |
| Text.PairMiss | src/main/java/org/example/LabRecordGenerator.java:536 | Without a two-character pattern at the start, the first character is kept, then the rest is handled. |
| Text.NotContainsPair | src/main/java/org/example/LabRecordGenerator.java:513 | A text in which the pattern's first two characters never stand together does not contain the pattern. |
| Text.Strip | src/main/java/org/example/LabRecordGenerator.java:480 | The characters of the text other than c, and only those, remain. |
| Text.ReplaceCharDeletes | src/main/java/org/example/LabRecordGenerator.java:480 | Replacing a single character by nothing strips it from the text. |
| Text.ReplaceAbsent | src/main/java/org/example/LabRecordGenerator.java:536 | A text that does not contain the pattern is returned unchanged. |
| Text.NotContainsFirst | src/main/java/org/example/LabRecordGenerator.java:496 | A pattern whose first character is absent is not contained. |
| Text.ReplaceCharRemoves | src/main/java/org/example/LabRecordGenerator.java:480 | Replacing a single character removes every occurrence, unless the replacement brings it back. |
| Text.ReplaceCharAppend | src/main/java/org/example/LabRecordGenerator.java:852 | Replacing a single character distributes over concatenation. |
| Text.LastIndexOf | src/main/java/org/example/LabRecordGenerator.java:514 | `lastIndexOf` gives the last occurrence, or -1 when there is none. |
| Text.SplitAll | src/main/java/org/example/LabRecordGenerator.java:493 | There is at least one piece, and no piece holds the separator. |
| Text.SplitAllJoin | src/main/java/org/example/LabRecordGenerator.java:493 | Joining the pieces with the separator gives the text back. |
| Text.SplitAllNoSeparator | src/main/java/org/example/LabRecordGenerator.java:512 | Without a separator, the whole text is the one piece. |
| Text.SplitAllAround | src/main/java/org/example/LabRecordGenerator.java:512 | Splitting around one separator splits each side. |
| Text.SplitAllLast | src/main/java/org/example/LabRecordGenerator.java:512 | A text not ending in the separator has a non-empty last piece. |
| Text.DropTrailingEmpty | src/main/java/org/example/LabRecordGenerator.java:493 | `split` drops exactly the trailing empty pieces and keeps the prefix. |
| ReadmeScan.DigitsAt | src/main/java/org/example/LabRecordGenerator.java:468 | `(\d+)` captures only digits. |
| ReadmeScan.DigitsRun | src/main/java/org/example/LabRecordGenerator.java:468 | `(\d+)` takes the whole greedy run of digits: digits up to its end, none at it. |
| ReadmeScan.DigitsSpelled | src/main/java/org/example/LabRecordGenerator.java:468 | Any greedy run of digits at d is what `(\d+)` takes. |
| ReadmeScan.TitleAt | src/main/java/org/example/LabRecordGenerator.java:468 | `(.*)` after `[\s:\-]*` neither starts with a separator nor holds a line end. |
| ReadmeScan.TitleAtSpans | src/main/java/org/example/LabRecordGenerator.java:468 | `[\s:\-]*(.*)` skips the whole greedy run of separators and captures the rest of the line after it. |
| ReadmeScan.TitleAtSpelled | src/main/java/org/example/LabRecordGenerator.java:468 | Any greedy run of separators followed by the rest of the line gives that title. |
| ReadmeScan.HeadingAt | src/main/java/org/example/LabRecordGenerator.java:468 | When the heading pattern matches, the number is non-empty digits and the title starts past the separators and holds no line end. |
| ReadmeScan.HeadingAtSpelled | src/main/java/org/example/LabRecordGenerator.java:468 | Any match of the pattern at p (the `#`, spaces, the word in any case, at least one space, the greedy digits, the greedy separators, the rest of the line) gives exactly the groups of that match. |
| ReadmeScan.HeadingAtSpans | src/main/java/org/example/LabRecordGenerator.java:468 | Conversely, a heading found at p comes from such a match, and its groups are that match's. |
| ReadmeScan.NumberAtSpelled | src/main/java/org/example/LabRecordGenerator.java:468 | After the word, at least one space, the greedy digits and the rest of the line past the separators give the number and the title. |
| ReadmeScan.NumberAtSpans | src/main/java/org/example/LabRecordGenerator.java:468 | Conversely, a number and title found after the word come from such spans. |
| ReadmeScan.HeadingAttempts | src/main/java/org/example/LabRecordGenerator.java:474-475 | One attempt at every offset of the line, the end included. |
| ReadmeScan.TitleOf | src/main/java/org/example/LabRecordGenerator.java:480 | The title taken from a `# ` line holds no `#`. |
| ReadmeScan.TitleOfStrips | src/main/java/org/example/LabRecordGenerator.java:480 | The title of a `# ` line is the line with every `#` removed, then trimmed. |
| ReadmeScan.LineHeadings | src/main/java/org/example/LabRecordGenerator.java:470-483 | What the loop makes of each README line, in order. |
| ReadmeScan.ScanReadme | src/main/java/org/example/LabRecordGenerator.java:459-485 | The README loop sets the number and title to `NumberAndTitle`: the first heading line's, over the defaults. |
| ReadmeScan.FindHeadingLeftmost | src/main/java/org/example/LabRecordGenerator.java:474-477 | `find()` reports the groups at the first offset where the heading pattern matches. |
| ReadmeScan.FindHeadingNone | src/main/java/org/example/LabRecordGenerator.java:475 | `find()` fails exactly when the pattern matches at no offset. |
| ReadmeScan.FindHeadingGroups | src/main/java/org/example/LabRecordGenerator.java:476-477 | A found heading has a number of digits and a title that starts past the separators. |
| ReadmeScan.NumberedHeading | src/main/java/org/example/LabRecordGenerator.java:475-478 | A numbered heading sets a non-empty number of digits and a title with nothing left to trim. |
| ReadmeScan.DigitsTrimmed | src/main/java/org/example/LabRecordGenerator.java:476 | `group(1).trim()` leaves the digits as they are. |
| ReadmeScan.FirstHeadingAt | src/main/java/org/example/LabRecordGenerator.java:478-481 | The scan settles on the first line with a heading. |
| ReadmeScan.NoHeadingAt | src/main/java/org/example/LabRecordGenerator.java:470-483 | The scan finds nothing exactly when no line has a heading. |
| ReadmeScan.ReadmeHeadingFirst | src/main/java/org/example/LabRecordGenerator.java:470-483 | The README's heading is that of the first line that has one. |
| ReadmeScan.ReadmeHeadingNone | src/main/java/org/example/LabRecordGenerator.java:470-483 | The README has no heading exactly when none of its lines has one. |
| ReadmeScan.ReadmeHeadingLine | src/main/java/org/example/LabRecordGenerator.java:470-483 | A README heading is the heading of one of its lines. |
| ReadmeScan.FirstHeadingIndex | src/main/java/org/example/LabRecordGenerator.java:478-481 | A heading the scan settles on stands at some line. |
| ReadmeScan.BlankLineSkipped | src/main/java/org/example/LabRecordGenerator.java:471-472 | A blank line, or one of trimmable characters only, does not change the outcome. |
| ReadmeScan.BlankLineHasNoHeading | src/main/java/org/example/LabRecordGenerator.java:471-472 | A line of trimmable characters only yields no heading. |
| ReadmeScan.NumberedLineExample | src/main/java/org/example/LabRecordGenerator.java:468-478 | The line `# Experiment 3: Stacks` gives number `3` and title `Stacks`. |
| ReadmeScan.TitleLineExample | src/main/java/org/example/LabRecordGenerator.java:474-481 | The line `# Linked List Demo` matches no heading pattern and gives the title `Linked List Demo`. |
| Autograding.JsonValueAt | src/main/java/org/example/LabRecordGenerator.java:534-536 | The group of `"key"\s*:\s*"(.*?)"` holds no quote and no line end. |
| Autograding.JsonValueAtSpelled | src/main/java/org/example/LabRecordGenerator.java:534-536 | Any match of `"key"\s*:\s*"(.*?)"` at p (the quoted key, any spaces, the colon, any spaces, the opening quote, and the text up to the first quote on the line) gives exactly that text as the group. |
| Autograding.JsonValueAtSpans | src/main/java/org/example/LabRecordGenerator.java:534-536 | Conversely, a value found at p comes from such a match, and is its group. |
| Autograding.JsonValueAtIff | src/main/java/org/example/LabRecordGenerator.java:534-536 | The pattern at p captures v exactly when some match of it there has v as its group (both directions). |
| Autograding.FindJsonValue | src/main/java/org/example/LabRecordGenerator.java:535-536 | The value `find()` reports holds no quote and no line end. |
| Autograding.ExtractJsonValue | src/main/java/org/example/LabRecordGenerator.java:533-538 | The extracted value never holds a quote. |
| Autograding.ScanAutograding | src/main/java/org/example/LabRecordGenerator.java:487-504 | The loop over the `{` pieces sets the three values to `AutogradingFields` of the file's text. |
| Autograding.FirstFieldsAt | src/main/java/org/example/LabRecordGenerator.java:495-501 | The values come from the first piece that names both `"name"` and `"run"`. |
| Autograding.NoQualifyingBlock | src/main/java/org/example/LabRecordGenerator.java:488 | With no qualifying piece, all three values stay empty. |
| Autograding.FieldsHaveNoQuote | src/main/java/org/example/LabRecordGenerator.java:497-499 | None of run, input and output holds a quote. |
| Autograding.FindJsonValueLeftmost | src/main/java/org/example/LabRecordGenerator.java:535-536 | `find()` reports the value at the first offset where the key pattern matches. |
| Autograding.MissingKey | src/main/java/org/example/LabRecordGenerator.java:537 | A key the pattern finds nowhere gives "". |
| Autograding.UnescapeNoBackslash | src/main/java/org/example/LabRecordGenerator.java:536 | A value without backslashes is returned as it stands. |
| Autograding.UnescapeExample | src/main/java/org/example/LabRecordGenerator.java:536 | `\n` becomes a newline and `\r` a carriage return. |
| Autograding.UnescapeOnePass | src/main/java/org/example/LabRecordGenerator.java:536 | The two chained replaces equal a single left-to-right pass that turns each `\n` into a newline and each `\r` into a carriage return and copies everything else. |
| Autograding.NoReturnAfter | src/main/java/org/example/LabRecordGenerator.java:536 | The first replace never puts an `r` at the front where none was, so it makes no new `\r` for the second. |
| Autograding.JsonValueRoundTrip | src/main/java/org/example/LabRecordGenerator.java:534-536 | A value written as `"key"`, any run of `\s`, `:`, any run of `\s`, then `"value"`, is read back exactly. |
| Autograding.ExtractWrittenValue | src/main/java/org/example/LabRecordGenerator.java:533-538 | A value written that way without backslashes comes out of `extractJsonValue` unchanged, whatever the spacing around the colon. |
| SourceTree.FirstWantedAppend | src/main/java/org/example/LabRecordGenerator.java:543-548 | The first wanted file of two runs is the first run's, if it has one. |
| SourceTree.Search | src/main/java/org/example/LabRecordGenerator.java:540-564 | The loop-and-recurse search returns the first wanted file of the depth-first file order. |
| SourceTree.FindJavaFile | src/main/java/org/example/LabRecordGenerator.java:540-551 | `findJavaFile` returns the first `<className>.java` in depth-first order, or null. |
| SourceTree.FindFirstJavaFile | src/main/java/org/example/LabRecordGenerator.java:553-564 | `findFirstJavaFile` returns the first `*.java` in depth-first order, or null. |
| SourceTree.FirstWantedAt | src/main/java/org/example/LabRecordGenerator.java:548 | A wanted file with no wanted file before it is the one reported. |
| SourceTree.FirstWantedNone | src/main/java/org/example/LabRecordGenerator.java:550 | The search returns null exactly when no file is wanted. |
| SourceTree.FirstWantedIsWanted | src/main/java/org/example/LabRecordGenerator.java:548 | What is reported is a wanted file with none before it. |
| SourceTree.FilesOfAreFiles | src/main/java/org/example/LabRecordGenerator.java:545-548 | Only files are ever reported, never directories. |
| SourceTree.FilesUnderAreFiles | src/main/java/org/example/LabRecordGenerator.java:545-548 | What lies under an entry is files only. |
| SourceTree.FilesOfAppend | src/main/java/org/example/LabRecordGenerator.java:544 | The files of two runs of entries are the first run's, then the second's. |
| SourceTree.NamedFoundImpliesAnyFound | src/main/java/org/example/LabRecordGenerator.java:517-518 | When `findJavaFile` finds something, `findFirstJavaFile` would too. |
| SourceTree.LaterSiblingsAfter | src/main/java/org/example/LabRecordGenerator.java:544-548 | A wanted file listed first is found before anything in later siblings. |
| RepoImport.DigitChar | src/main/java/org/example/LabRecordGenerator.java:460 | A digit value becomes a digit character. |
| RepoImport.NatToDecimal | src/main/java/org/example/LabRecordGenerator.java:460 | `String.valueOf` of a row number is non-empty digits with no leading zero. |
| RepoImport.DecimalRoundTrip | src/main/java/org/example/LabRecordGenerator.java:460 | The decimal text denotes the number it was made from. |
| RepoImport.CommandWords | src/main/java/org/example/LabRecordGenerator.java:512 | `runCmd.trim().split(" ")` has a last word, no word holds a space, and the words joined by spaces give back the trimmed command. |
| RepoImport.LastCommandWord | src/main/java/org/example/LabRecordGenerator.java:512 | A trimmed command that is a prefix, a space and a space-free word splits into the prefix's words and then that word. |
| RepoImport.ClassNameOf | src/main/java/org/example/LabRecordGenerator.java:510-515 | The class name holds no dot and no space; an empty run command names no class. |
| RepoImport.ClassOfWord | src/main/java/org/example/LabRecordGenerator.java:513-514 | A class name holds no dot, and no space when the word has none. |
| RepoImport.ClassNameOfLast | src/main/java/org/example/LabRecordGenerator.java:512-514 | The class a command names is the class its last word names. |
| RepoImport.ClassOfPlainWord | src/main/java/org/example/LabRecordGenerator.java:513-514 | A word of word characters names itself. |
| RepoImport.ClassOfFileName | src/main/java/org/example/LabRecordGenerator.java:513 | `.java` is deleted: `<w>.java` names `w`. |
| RepoImport.ClassOfQualifiedName | src/main/java/org/example/LabRecordGenerator.java:514 | The name is cut after its last dot: `<q>.<w>` names `w`. |
| RepoImport.ClassNameOfCommand | src/main/java/org/example/LabRecordGenerator.java:511-514 | A command ending in a space and a word-character name names that class. |
| RepoImport.ClassNameOfFile | src/main/java/org/example/LabRecordGenerator.java:512-514 | A command ending in a space and `<w>.java` names `w`. |
| RepoImport.ClassNameOfQualified | src/main/java/org/example/LabRecordGenerator.java:512-514 | A command ending in a space and `<q>.<w>`, with no space in q, names `w`. |
| RepoImport.ClassNameOfFileExample | src/main/java/org/example/LabRecordGenerator.java:512-514 | `java Main.java` names `Main`. |
| RepoImport.ClassNameOfQualifiedExample | src/main/java/org/example/LabRecordGenerator.java:512-514 | `java org.example.Main` names `Main`. |
| RepoImport.ClassNameOfCommandExample | src/main/java/org/example/LabRecordGenerator.java:512-514 | `java Main` names `Main`. |
| RepoImport.ReadSourceCode | src/main/java/org/example/LabRecordGenerator.java:506-524 | The `src` step sets the code to `CodeOf`: the named file, else the first Java file, else the messages. |
| RepoImport.ImportFromRepository | src/main/java/org/example/LabRecordGenerator.java:458-529 | The import saves exactly `Import(repo, rowCount)`. |
| RepoImport.EmptyRepository | src/main/java/org/example/LabRecordGenerator.java:459-507 | An empty repository gets the next number, the default title and aim, the missing-folder message, and empty input and output. |
| RepoImport.ExpNoIsDecimal | src/main/java/org/example/LabRecordGenerator.java:460-476 | The experiment number is always non-empty digits. |
| RepoImport.ReadmeFallback | src/main/java/org/example/LabRecordGenerator.java:462-463 | `readme.md` is read only when `README.md` does not exist. |
| RepoImport.NextRowNumber | src/main/java/org/example/LabRecordGenerator.java:460 | Without a numbered README heading, the number is the row count plus one. |
| RepoImport.InputOutputUnquoted | src/main/java/org/example/LabRecordGenerator.java:497-499 | The saved input and output never hold a quote. |
| RepoImport.NoSrcDirectory | src/main/java/org/example/LabRecordGenerator.java:506-509 | Without a `src` directory, the code is the missing-folder message. |
| RepoImport.NoJavaFile | src/main/java/org/example/LabRecordGenerator.java:517-523 | A `src` tree without `.java` files gives the missing-file message. |
| RepoImport.NamedFileTaken | src/main/java/org/example/LabRecordGenerator.java:517-521 | The first file named after the run command's class supplies the code. |
| RepoImport.FirstJavaFileTaken | src/main/java/org/example/LabRecordGenerator.java:518-521 | With no file of that name, the first `.java` file supplies the code. |
| RepoImport.UnreadableFile | src/main/java/org/example/LabRecordGenerator.java:522 | A chosen file that cannot be read gives the read-error message. |
| RepoImport.CodeIsJavaText | src/main/java/org/example/LabRecordGenerator.java:506-524 | The code is one of the three messages, or the text of a `.java` file under `src`. |
| RepoImport.ChosenFileIsJava | src/main/java/org/example/LabRecordGenerator.java:517-518 | The chosen file is a `.java` file under `src`. |

## Left out

- **The user interface.** The dialogs, the table model, the database,
  the PDF layout and fonts, and the success message are not modelled. The
  row count is a parameter.
- **The date.** The date the record gets is the caller's; clocks are not
  modelled.
- **File I/O.** It is abstracted:
  - `exists()` is whether the README or autograding value is present;
  - a failed README read counts as the lines read so far;
  - a failed autograding read counts as no file;
  - a failed directory listing counts as an empty one;
  - `javaFile.exists()` is taken as true for files the listing returned,
    so a file that vanishes after listing is not modelled;
  - the charsets of `FileReader` and `new String(bytes)` are not
    modelled: texts are sequences of characters.
- **Line splitting.** It is the caller's: a README is its lines, as
  `readLine` gives them.
- **Line ends.** Only `\n` and `\r` count as line ends for `.`. Java also
  stops `.` at U+0085, U+2028 and U+2029; the model treats those as
  ordinary characters.
- **Word characters.** `\w` and `\b` are modelled over ASCII letters,
  digits and `_`.
- **Case folding.** `toLowerCase()` and `(?i)` are modelled on ASCII
  letters only. Java's `toLowerCase` also folds other letters; the model
  does not. `String.toLowerCase()` also follows the default locale: under a
  Turkish locale `I` becomes a dotless `ı`, so a badge line written with `I`
  would not be recognised there. The model folds as the root locale does.
- **The aim and record fields at lines 438-441.** Only the clean-up they
  apply is modelled (`Sanitise`). The save dialog around them is not.
- HighlighterFacts.TokenizesShape: states only that chunks are non-empty
  and that two plain chunks never touch. The full characterisation is
  `TokenizeCharacterised`.
