# git-parser in Dafny

A model of `source/git-parser.js`, the module that turns the text output of git
commands into records. It covers all eight parsers:

- `parseGitStatus`: porcelain status to a branch name and a map from path to four flags.
- `parseGitDiff`: a unified diff to one record per file block. Each record holds the
  paths, the modes, the kind flags and the body lines, with running original/new line numbers.
- `parseGitLog`: `git log` output to commits, read by a three-state machine
  (commit line, headers, message) with one row of lookahead.
- `parseGitConfig`, `parseGitBranches`, `parseGitTags`, `parseGitRemotes` and
  `parseGitLsRemote`: the line-by-line parsers.

The files and modules:

| file | module | contents |
|---|---|---|
| `results.dfy` | `Results` | `Option` and `Result` |
| `js_text.dfy` | `JsText` | the JavaScript string operations the parsers use: `split` (splitting `""` gives `[""]`), `join`, `trim` with the `\s` whitespace set, `slice`, `indexOf`, `filter(p => p != '')`, digit runs and decimal values |
| `diff_format.dfy` | `DiffFormat` | the regular expressions of `parseGitDiff`, written as predicates plus scanners: the header pattern with its lazy first capture, the mode, file-mode and similarity patterns, and the unanchored hunk pattern with its leftmost match |
| `diff.dfy` | `DiffParser` | `parseGitDiff` |
| `log.dfy` | `LogParser` | `parseGitLog` |
| `status.dfy` | `StatusParser` | `parseGitStatus` |
| `config.dfy` | `ConfigParser` | `parseGitConfig` |
| `branches.dfy` | `BranchParser` | `parseGitBranches` |
| `lists.dfy` | `ListParsers` | `parseGitTags`, `parseGitRemotes`, `parseGitLsRemote` |

The parsers that drain or fill state in loops become methods with `while` loops:

- `ParseDiff`, `ReadBlock` and `ReadBody` for `parseGitDiff`;
- `ReadRows`, `ParseRow`, `TrimMessages` and `ParseLog` for `parseGitLog`;
- `ParseStatus`, `ParseConfig` and `ParseBranches`.

Each method is proved equal to a specification function (`DiffOf`, `LogOf`, `StatusOf`,
`ConfigOf`, `BranchesOf`). The lemmas about those functions state what the source
promises. The `filter`/`map` pipelines (tags, remotes, ls-remote) are functions.

Where the source throws a `TypeError`, the model returns an error value:

- an unmatched `exec` on the diff header, the hunk header or a `Commit:` row;
- a `new file`/`deleted file` line without a mode;
- a missing index line.

## Model

| member | source | states |
|---|---|---|
| JsText.Split | source/git-parser.js:6 | `split` always gives at least one piece; splitting `""` gives `[""]` |
| JsText.JoinSplit | source/git-parser.js:120 | joining the pieces of a split with the same separator gives the text back |
| JsText.SplitJoin | source/git-parser.js:183-185 | splitting undoes joining when no piece holds the separator |
| JsText.SplitJoinRest | source/git-parser.js:28 | splitting `join(parts) + sep + rest` gives the parts, then the pieces of `rest` |
| JsText.SplitAround | source/git-parser.js:6 | for a one-character separator, the split of `a + sep + b` is the split of `a` followed by the split of `b` |
| JsText.SplitTrailingSeparator | source/git-parser.js:164 | a separator at the end adds exactly one empty piece |
| JsText.SplitSeparated | source/git-parser.js:165 | a piece without the separator, then the separator, is split off whole |
| JsText.SplitUnseparated | source/git-parser.js:165 | text without the separator is a single piece |
| JsText.SplitPieces | source/git-parser.js:165 | no piece of a split on one character holds it, and there is more than one piece exactly when the text holds it |
| JsText.SplitTailJoin | source/git-parser.js:120 | `s.split(sep).slice(1).join(sep)` is the text after the first separator when the first word has none |
| JsText.RemoveEmpty | source/git-parser.js:107 | the filter leaves no empty piece and keeps every other piece as often as it occurs |
| JsText.RemoveEmptyAppend | source/git-parser.js:107 | filtering distributes over concatenation, so order is kept |
| JsText.RemoveEmptyKeeps | source/git-parser.js:183-185 | a sequence with no empty piece passes the filter unchanged |
| JsText.TrimShape | source/git-parser.js:13 | `trim` gives `""` exactly for all-whitespace text, and otherwise starts and ends with a non-whitespace character |
| JsText.TrimPad | source/git-parser.js:199 | `trim` removes exactly the whitespace around a core that has none at its ends |
| JsText.TrimIdempotent | source/git-parser.js:157 | trimming twice is trimming once |
| JsText.DigitPrefix | source/git-parser.js:80 | the greedy `\d+` capture is all digits, a prefix of the text, and followed by a non-digit or the end |
| JsText.DigitPrefixOf | source/git-parser.js:80 | a digit run followed by a non-digit is the whole greedy capture |
| JsText.DecimalRoundTrip | source/git-parser.js:81-82 | a rendered number is non-empty digits and reads back as the same number |
| JsText.IndexOfFrom | source/git-parser.js:121 | `indexOf` gives the first position at or after the start that holds the character, or none when there is none |
| StatusParser.ParseStatus | source/git-parser.js:4-24 | the loop over the file lines computes `StatusOf(text)`: the branch of the first line and the files map |
| StatusParser.StatusFileKeys | source/git-parser.js:10-21 | a path is a key exactly when some non-empty file line has it as its unquoted, trimmed path |
| StatusParser.StatusLastLineWins | source/git-parser.js:17-21 | the last line for a path decides its flags. staged ⇔ X∈{A,M}; removed ⇔ X=D ∨ Y=D; isNew ⇔ X∈{?,A} ∧ ¬removed; conflict ⇔ X=U ∨ Y=U |
| StatusParser.LineFlags | source/git-parser.js:17-20 | a file is never both new and removed; on a one-character line `status[1]` matches nothing, so removed ⇔ X=D and conflict ⇔ X=U |
| StatusParser.Unquote | source/git-parser.js:14-15 | a path with a quote at both ends is that quote, the result and the quote again; a lone `"` becomes empty; any other path is kept; never longer |
| StatusParser.PathOf | source/git-parser.js:13-15 | a line of at most three characters has the empty path; otherwise the path is at most the line less its first three characters |
| StatusParser.BranchOf | source/git-parser.js:7 | the branch holds no space, and a first line without a space is the branch whole |
| StatusParser.StatusFiles | source/git-parser.js:10-22 | no file in the map is both new and removed; file lines that are all empty give the empty map |
| StatusParser.StatusOf | source/git-parser.js:4-24 | the branch holds no space and no file is both new and removed |
| StatusParser.UnknownCodeNoFlags | source/git-parser.js:17-20 | a code outside the table gives four false flags, not an error |
| StatusParser.StagedAndRemoved | source/git-parser.js:17-18 | `MD` is both staged and removed |
| StatusParser.QuotedPathKey | source/git-parser.js:13-15 | a quoted path loses exactly its two quotes |
| StatusParser.PlainPathKey | source/git-parser.js:13 | an unquoted path is the key as it stands, whatever whitespace separates it from the code |
| StatusParser.BranchIsLastToken | source/git-parser.js:7 | the branch is the token after the last space of the first line |
| StatusParser.EmptyStatus | source/git-parser.js:6-9 | empty text gives the empty branch and no files, not an error |
| DiffFormat.LeastHeaderSplit | source/git-parser.js:33 | a found first-capture length is at least the start and the whole pattern matches with it |
| DiffFormat.DiffHeader | source/git-parser.js:33-35 | on a match both captures are non-empty, the pattern matches with a first capture of `aPath`'s length, `aPath` is the text from column 13 and `bPath` the rest of the line after ` b/` |
| DiffFormat.LeastHeaderSplitIsLeast | source/git-parser.js:33 | the length found is a match and no shorter one from the start is; none is found only when none matches |
| DiffFormat.DiffHeaderMatch | source/git-parser.js:33-35 | the header matches ⇔ some split matches. Then `aPath` is the shortest split (the lazy `(.+?)`) and `bPath` is the rest of the line |
| DiffFormat.HeaderIsDiffLine | source/git-parser.js:33 | a matching header starts with `diff` |
| DiffFormat.DiffHeaderRoundTrip | source/git-parser.js:33 | any whitespace and word characters in the fixed places give back both paths, when the first has no whitespace |
| DiffFormat.GitHeaderPaths | source/git-parser.js:33-35 | `diff --git a/<a> b/<b>` gives `a` and `b` |
| DiffFormat.HeaderSplitsEarly | source/git-parser.js:33 | with ` b/` inside, the lazy capture stops at the first one: `a/x b/y b/z` gives `x` and `y b/z` |
| DiffFormat.ModeCapture | source/git-parser.js:37-39 | a capture is a non-empty digit run right after the prefix, not followed by another digit; a missing line captures nothing; the prefix followed by a digit always captures |
| DiffFormat.ModeCaptureRoundTrip | source/git-parser.js:38-39 | `^old mode (\d+)` captures the whole digit run, whatever follows |
| DiffFormat.ModeAsWrittenIsMatchArray | source/git-parser.js:38-39 | as written, the stored value is the `exec` array `[whole match, digits]`, never the digits |
| DiffFormat.RestOfLine | source/git-parser.js:54 | `^new file mode (.+)$` matches ⇔ the prefix is there and the non-empty rest has no line terminator; the capture is that rest |
| DiffFormat.SimilarityCapture | source/git-parser.js:62 | a capture is a non-empty digit run and the line starts with `similarity index <digits>%` |
| DiffFormat.SimilarityRoundTrip | source/git-parser.js:62 | `similarity index <n>%` captures the digits of `n` |
| DiffFormat.HunkAt | source/git-parser.js:80 | a match at `p` means `@@ -` at `p` followed by a digit |
| DiffFormat.FirstHunk | source/git-parser.js:80 | a found position is at or after the start and the pattern matches there |
| DiffFormat.FirstHunkIsLeftmost | source/git-parser.js:80 | the scan for the hunk pattern finds a match position with no match before it, or no match at all |
| DiffFormat.HunkRangeLeftmost | source/git-parser.js:80-82 | the numbers are those of the leftmost match; there are none exactly when the pattern matches nowhere |
| DiffFormat.HunkAtStart | source/git-parser.js:80 | the pattern matches at the start of `@@ -<d1>[,<l>] +<d3>…` with captures `d1` and `d3` |
| DiffFormat.HunkRangeRoundTrip | source/git-parser.js:80-82 | a rendered header `@@ -o[,l] +n[,m]<tail>` gives `(o, n)`, with or without the lengths |
| DiffParser.Inc | source/git-parser.js:86-90 | `++` adds one to a number and leaves `NaN` as `NaN` |
| DiffParser.ModeLines | source/git-parser.js:37-40 | the optional mode pair consumes lines and never adds any |
| DiffParser.Classify | source/git-parser.js:47-70 | the kind branch only drops lines |
| DiffParser.SkipMarkers | source/git-parser.js:73-74 | a successful shift of the index and marker lines consumes at least one line |
| DiffParser.BodyStep | source/git-parser.js:78-92 | one body line gives one entry |
| DiffParser.ParseBody | source/git-parser.js:77-93 | the body loop never adds lines |
| DiffParser.ParseBlock | source/git-parser.js:31-97 | every block read consumes at least its header line and records the two captures of that header; an unmatched header line is the error |
| DiffParser.ParseBlocks | source/git-parser.js:31-97 | there are at most as many records as lines, every record has two non-empty paths, and the first record has the paths of the first line |
| DiffParser.DiffOf | source/git-parser.js:26-99 | there are at most as many records as lines, and every record has two non-empty paths |
| DiffParser.ReadBody | source/git-parser.js:75-94 | the body loop computes `ParseBody`: shifted lines, entries and counters |
| DiffParser.ReadBlock | source/git-parser.js:32-96 | one outer iteration computes `ParseBlock` |
| DiffParser.ParseDiff | source/git-parser.js:26-99 | the whole parse computes `DiffOf(text)`, with the counters carried from block to block |
| DiffParser.BodyStepFails | source/git-parser.js:79-83 | a body line fails ⇔ it is an `@@ ` line the hunk pattern does not match. It then fails with that line; otherwise its entry holds the raw line |
| DiffParser.MalformedHunkFails | source/git-parser.js:80-81 | an unmatched `@@ ` line makes the body parse fail |
| DiffParser.MalformedHeaderFails | source/git-parser.js:31-34 | a non-empty first line that is no header makes the whole parse fail |
| DiffParser.BodyConsumes | source/git-parser.js:77-93 | a body consumes a prefix of its lines, one entry per line with the line's own text. It stops exactly at the end, an empty line or a `diff` line |
| DiffParser.BodyLocal | source/git-parser.js:77 | what follows a body does not change how it is read, as long as it ends the body |
| DiffParser.HunkBodyIgnoresCounters | source/git-parser.js:79-83 | a body that starts with a hunk header does not depend on the counters left by earlier blocks |
| DiffParser.Numbered | source/git-parser.js:79-92 | the closed-form numbering has one entry per line |
| DiffParser.NumberedCons | source/git-parser.js:84-91 | the closed form numbers the first line with the start values, then the rest from the incremented ones |
| DiffParser.ChangeLinesNumbered | source/git-parser.js:84-91 | after a header, the running counters give exactly the closed form. Each line's original number is `o` plus the earlier non-`+` lines, and its new number is `n` plus the earlier non-`-` lines |
| DiffParser.HunkNumbering | source/git-parser.js:79-91 | a hunk gives its header as `(null, null, line)`, then its lines numbered from the header's two starts, whatever the counters were before |
| DiffParser.HeaderStep | source/git-parser.js:79-83 | a hunk header gives an entry without numbers and restarts both counters |
| DiffParser.NumbersIncrease | source/git-parser.js:84-91 | within a hunk, original numbers strictly increase down the lines, and so do new numbers |
| DiffParser.BlockKinds | source/git-parser.js:37-70 | a block has no body ⇔ its header and modes are followed by the end or a `diff --git` line. Otherwise at most one of new/deleted/renamed holds; new ⇒ aMode null and bMode set; deleted ⇒ bMode null and aMode set; not renamed ⇒ simIndex 0 |
| DiffParser.ModeOnlyBlock | source/git-parser.js:37-45 | a header with a mode pair followed by the end or another header is a record with paths and the two digit modes only |
| DiffParser.IndexLineKind | source/git-parser.js:37-62 | an `index ` line is not a mode, kind or similarity line |
| DiffParser.IndexedBlockParse | source/git-parser.js:42-96 | a block whose second line is `index …` reads its body from the fifth line, with no modes and no kind flags |
| DiffParser.StandardBlockParse | source/git-parser.js:31-97 | a standard block gives its paths and body entries and leaves what follows for the next block |
| DiffParser.StandardBlockLocal | source/git-parser.js:31-97 | a standard block's record depends neither on what follows it nor on earlier counters |
| DiffParser.StartsWithBlock | source/git-parser.js:77 | a following header, an empty line or the end ends the body before it |
| DiffParser.StandardBlocks | source/git-parser.js:31-98 | concatenated standard blocks give their records in input order. An empty line after them ends the parse |
| DiffParser.DiffOfStandardText | source/git-parser.js:26-99 | the text of standard blocks, newline-terminated and followed by nothing or a blank line, parses to their records in order |
| DiffParser.RenameThrowsAsWritten | source/git-parser.js:64 | as written, every similarity line makes the parse throw, because `to_i` is not a string method |
| DiffParser.RenameMarkersAsWritten | source/git-parser.js:66-74 | as written, the two shifts leave `rename to`, which is taken for the index line, and the body starts at the `---` line |
| DiffParser.RenameMarkers | source/git-parser.js:62-74 | with the similarity line shifted too, a rename records its index and the body starts after `+++` |
| LogParser.ParseCommitLine | source/git-parser.js:104-116 | `sha1` is set ⇔ there are hashes; the hashes are `sha1` then the parents; without hashes there are no parents; refs from the decoration; message unset |
| LogParser.Hashes | source/git-parser.js:107 | the filter leaves no empty hash |
| LogParser.Refs | source/git-parser.js:106-113 | a commit line without `(` has no refs |
| LogParser.Step | source/git-parser.js:143-156 | one row keeps a current commit outside the commit-line state. The commit-line state pushes exactly one commit; settled commits are unchanged. The only error is a `Commit:` row in the header state |
| LogParser.Run | source/git-parser.js:154-156 | the `forEach` keeps a current commit outside the commit-line state |
| LogParser.ReadRows | source/git-parser.js:152-156 | the loop over the rows computes `Run` from the commit-line state with no commits |
| LogParser.ParseRow | source/git-parser.js:104-151 | one call of the function `parser` holds computes `Step` |
| LogParser.TrimMessages | source/git-parser.js:157 | the final loop trims every message and changes nothing else |
| LogParser.ParseLog | source/git-parser.js:101-159 | the whole parse computes `LogOf(data)` |
| LogParser.RunKeepsSettled | source/git-parser.js:104-151 | later rows never change a settled commit: those before the current one, or all of them once the next commit line is due |
| LogParser.HashTokens | source/git-parser.js:107 | the tokens after `commit ` are the hashes, with or without a trailing space |
| LogParser.DecoratedSplit | source/git-parser.js:106-112 | the part before `(` and the decorations after it, split on `", "` |
| LogParser.CommitLineRoundTrip | source/git-parser.js:104-113 | a commit line gives back its hash, its parents in order and its decorations; without `(` there are none |
| LogParser.DecoratedRow | source/git-parser.js:106-112 | hashes and refs of a decorated commit line |
| LogParser.PlainRow | source/git-parser.js:106-110 | hashes of an undecorated commit line, with no refs |
| LogParser.NameEmailRoundTrip | source/git-parser.js:121 | `name<email>…` gives both captures when the name has no `<` and the email no `>` |
| LogParser.NoBracketNoMatch | source/git-parser.js:121-126 | without `<` the pattern cannot match |
| LogParser.NameEmailAt | source/git-parser.js:121 | a match at a position has a non-empty `<`-free name and non-empty `>`-free email, and `name<email>` stands at that position |
| LogParser.FirstNameEmail | source/git-parser.js:121 | a match found from a position has captures of the pattern's two character classes |
| LogParser.NameEmail | source/git-parser.js:121 | both captures of `exec` are non-empty, the name without `<` and the email without `>` |
| LogParser.NameEmailPresent | source/git-parser.js:121 | the scan finds a match whenever some `name<email>` with such captures occurs at or after the start |
| LogParser.NameEmailAtOccurrence | source/git-parser.js:121 | where `name<email>` occurs, the match at that position captures exactly that name and email |
| LogParser.NameEmailLeftmost | source/git-parser.js:121 | the match found is the one at the leftmost position where the pattern matches |
| LogParser.NameEmailFound | source/git-parser.js:121 | the captures are non-empty, `<`-free and `>`-free, and `name<email>` occurs in the text |
| LogParser.ArgumentAfterWord | source/git-parser.js:120 | the value of a header row is everything after its first space |
| LogParser.HeaderStep | source/git-parser.js:117-142 | a header row fails ⇔ it is a `Commit:` row without a match, with that row as the error; otherwise it never changes hash, parents, refs or message, switches to the message state exactly on a blank row, and a blank row changes nothing |
| LogParser.AuthorHeaderFields | source/git-parser.js:119-124 | `Author: <name> <<email>>` sets both author fields, trimmed, and stays in the header state |
| LogParser.AuthorWithoutEmail | source/git-parser.js:125-127 | without `<`, the whole value becomes the author name |
| LogParser.CommitterWithoutEmail | source/git-parser.js:128-132 | a `Commit:` row without `<email>` is the error the source throws |
| LogParser.DateHeaders | source/git-parser.js:133-136 | the two date headers store their value trimmed |
| LogParser.OtherHeaderRow | source/git-parser.js:137-141 | any other row leaves the commit unchanged and switches to the message exactly when blank |
| LogParser.NextIsCommit | source/git-parser.js:144 | a lookahead that ends the message is a present, non-blank row |
| LogParser.AppendMessage | source/git-parser.js:148-150 | the message stays empty ⇔ it was empty and the row is blank; a non-empty message gains `"\n"`; the result always ends with the trimmed row |
| LogParser.MessageRowsJoined | source/git-parser.js:143-151 | message rows, none after the first starting a commit line and the next row not starting one, are trimmed and joined with `"\n"` after the message so far; blank rows become empty lines. A blank first row on an empty message is left to `AppendMessage` |
| LogParser.JoinedCons | source/git-parser.js:148-150 | appending one row and then joining the others is joining them all, blank rows included |
| LogParser.RowBeforeCommitDropped | source/git-parser.js:144-147 | the row before a commit line is dropped, and the commit line starts the next commit |
| LogParser.FinishTrims | source/git-parser.js:157 | final messages have no whitespace at either end; every other field is as the rows left it |
| LogParser.Finish | source/git-parser.js:157 | the final loop keeps the number of commits and changes nothing but their messages |
| LogParser.LogOf | source/git-parser.js:101-159 | a successful parse has at least one commit; a failure names one of the text's rows, a `Commit:` row |
| LogParser.EmptyLog | source/git-parser.js:101-158 | empty text gives one commit with no hash and an empty message |
| LogParser.OneCommitLog | source/git-parser.js:101-159 | a log of one commit with an author and a one-line message parses to exactly that commit |
| LogParser.ApplyHeaders | source/git-parser.js:117-142 | header rows never change the hash, the parents, the refs or the message |
| LogParser.HeaderRowsRun | source/git-parser.js:117-142 | well-formed non-blank header rows keep the header state and change only the current commit, by their header fields |
| LogParser.RunPrinted | source/git-parser.js:152-156 | the rows of printed commits (commit line, headers, blank row, message rows, blank row) give one commit each, in order |
| LogParser.LogOfPrinted | source/git-parser.js:101-159 | a log of any number of printed commits parses to exactly those commits: the commit line's fields, the header fields and the message rows trimmed and joined |
| ConfigParser.ParseConfig | source/git-parser.js:162-169 | the loop computes `ConfigOf(text)` |
| ConfigParser.ConfigTable | source/git-parser.js:164-167 | no key and no defined value holds `=`, and rows always leave some key |
| ConfigParser.ConfigOf | source/git-parser.js:162-169 | the table is never empty, and no key or defined value holds `=` |
| ConfigParser.ConfigKeys | source/git-parser.js:164-167 | a key is in the table exactly when some row, empty ones included, has it before its first `=` |
| ConfigParser.ConfigLastWins | source/git-parser.js:164-167 | the last row with a key decides its value |
| ConfigParser.EntryRoundTrip | source/git-parser.js:165-166 | `key=value` gives key and value, and so does `key=value=more` |
| ConfigParser.Entry | source/git-parser.js:165-166 | the key and a defined value hold no `=`; the value is undefined ⇔ the row has no `=`, and then the key is the whole row |
| ConfigParser.TrailingNewlineEmptyKey | source/git-parser.js:164-166 | text ending in a newline always has the key `""` with an undefined value |
| ConfigParser.EmptyConfig | source/git-parser.js:162-168 | empty text gives the table with the empty key alone |
| BranchParser.ParseBranches | source/git-parser.js:171-180 | the loop computes `BranchesOf(text)` |
| BranchParser.BranchOfRow | source/git-parser.js:175-176 | the name is the row after its two-column marker (empty for a shorter row); current ⇔ the row starts with `*` |
| BranchParser.BranchList | source/git-parser.js:173-178 | there are at most as many branches as rows, and blank rows alone give none |
| BranchParser.BranchesOf | source/git-parser.js:171-180 | there are at most as many branches as lines |
| BranchParser.BranchListAppend | source/git-parser.js:173-178 | the branches of rows after rows come after theirs, in order |
| BranchParser.BranchCount | source/git-parser.js:174 | there is one branch per row that is not whitespace-only |
| BranchParser.BranchRowRoundTrip | source/git-parser.js:174-176 | a printed row `* name` or `  name` gives back the name and whether it is current |
| BranchParser.BranchListRoundTrip | source/git-parser.js:173-178 | printed rows give back their branches in order |
| BranchParser.BranchTextRoundTrip | source/git-parser.js:171-180 | the newline-terminated text of branch rows gives back the branches |
| ListParsers.NamesOf | source/git-parser.js:182-192 | the result of tags/remotes holds no empty name |
| ListParsers.NamesKeepLines | source/git-parser.js:183-185 | exactly the empty lines are dropped; the names of two texts come one after the other |
| ListParsers.NamesRoundTrip | source/git-parser.js:182-192 | names printed one per line, with or without a final newline, come back in order |
| ListParsers.ListedLines | source/git-parser.js:195-197 | every kept line is non-empty and does not start with `From ` |
| ListParsers.ListedLinesAppend | source/git-parser.js:195-197 | the filter distributes over concatenation |
| ListParsers.ListedLinesKeeps | source/git-parser.js:195-197 | lines that pass the filter are all kept, in order |
| ListParsers.RefLineRoundTrip | source/git-parser.js:197-200 | `<40-char hash><sep><pad><name>` gives the hash and the trimmed name |
| ListParsers.RefOfLine | source/git-parser.js:198-200 | the hash is the first 40 characters (all of a shorter line); the name is empty on a line of at most 41 characters and has no whitespace at either end |
| ListParsers.RemoteRefsOf | source/git-parser.js:194-202 | there are at most as many refs as lines, and no hash is longer than 40 characters |
| ListParsers.RemoteRefsRoundTrip | source/git-parser.js:194-202 | `ls-remote` output with its `From` line and a final newline gives back the refs in order |
| ListParsers.FromLineDropped | source/git-parser.js:196 | the `From ` line and empty lines are dropped |

## Left out

- `os.EOL` is fixed to a line feed (`JsText.EOL`). The platform's separator is not modelled.
- The `moment` import is unused and left out. So is the constant `inited = true` field of the status result.
- JavaScript object identity is not modelled: a record is a value.
  - The log's `currentCommmit` is the last element of the commit sequence, which is the object it aliases.
  - The result objects have no prototype keys: the status files map and the config table are maps over exactly the keys written.
- `null` and `undefined` are one value, `None`.
  - An unset log field is `None`.
  - An unset message `undefined` and `""` behave the same in every test the source makes. So the message starts as `""`, and the final `forEach` gives `""` for both.
- The line counters are naturals. `undefined` (before any hunk header) and the `NaN` that `++` makes of it are both `None`. The string-to-number coercion of the captured digits is `DecimalValue`.
- JavaScript strings are sequences of UTF-16 code units: `slice`, `row[0]`, `indexOf` and `length` count code units. A Dafny `char` is a Unicode scalar value, so text with characters outside the Basic Multilingual Plane is cut at different places than the source cuts it (for example the 40-character hash prefix of `ls-remote` and the fixed offsets of the status and date rows).
- JavaScript numbers are doubles. The line counters of `parseGitDiff` (the `++` of source/git-parser.js:86-90) and the string-to-number coercion of the hunk header's digits are exact only up to 2^53; the model's naturals are unbounded and do not model the rounding past that.
- `parseGitTags` and `parseGitRemotes` are the same pipeline, so both are modelled by the one function `ListParsers.NamesOf`.
- Regular expressions are not modelled in general. Each of the source's patterns is a predicate plus a scanner that picks the match JavaScript's engine picks, in `DiffFormat` and `LogParser.NameEmail`.
- Some methods are split into smaller methods, each proved against its own function:
  - `parseGitDiff` into `ReadBody` (the inner loop), `ReadBlock` (one outer iteration) and `ParseDiff`;
  - `parseGitLog` into `ParseRow` (one call of `parser`), `ReadRows` (the `forEach`), `TrimMessages` (the final `forEach`) and `ParseLog`.
- The mode values, the similarity index and the rename shifts follow the code as corrected under "Findings" in `DiffParser.ParseDiff`. The code as written is modelled beside it by the as-written members.
- `DiffParser.DiffOfStandardText`: stated for blocks with an `index` line and hunks, not for every block kind. New-file, deleted-file, mode-only and rename blocks are covered by `BlockKinds`, `ModeOnlyBlock` and `RenameMarkers`.
- The code's behaviour on degenerate input is modelled as written:
  - empty status text does not fail: its branch is `""` and its files map is empty (`StatusParser.EmptyStatus`);
  - empty config rows are not skipped: each gives the key `""` with an undefined value (`ConfigParser.TrailingNewlineEmptyKey`);
  - a branch row is skipped when it is blank after trimming, not only when it is empty (`BranchParser.BranchCount`).

## Findings

| source | as written | input that shows it | evidently intended | confidence | as-written member | corrected member |
|---|---|---|---|---|---|---|
| source/git-parser.js:38-39 | `aMode` and `bMode` are assigned the whole `exec` result array | `old mode 100644` stores `["old mode 100644", "100644"]` | the captured digits `100644` | not executed | DiffFormat.ModeAsWrittenIsMatchArray | DiffParser.ModeOnlyBlock |
| source/git-parser.js:64 | `m[1].to_i()` calls a method JavaScript strings do not have, so the call throws | any block with `similarity index 90%` | the decimal value 90 | not executed | DiffParser.RenameThrowsAsWritten | DiffParser.RenameMarkers |
| source/git-parser.js:66-68 | two lines are shifted while the similarity line is still first, so `rename to` is left in place | `similarity index 90%`, `rename from a`, `rename to b`, `index …`, `--- a/a`, `+++ b/b`: the `---` and `+++` lines become numbered body lines | shift the similarity line and both rename lines, so the body starts after `+++` | not executed | DiffParser.RenameMarkersAsWritten | DiffParser.RenameMarkers |
