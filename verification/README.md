# forsikt policy files, modelled in Dafny

forsikt checks the module graph of a Go build against a hand-written policy
file, `go.audit`. The policy file declares its format version (`audit 1`),
the module versions that are trusted (`trust path version signature`, or
`trust path [ low , high ] signature`), and the ones that are forbidden
(`violation ...`). Several rules of one kind can be grouped in a
`trust ( ... )` block. Comments attached to a rule are kept as its notes.

This project models the part of forsikt that runs after the lexer:

- **Semantic builder** (`Parser`, `Intervals`, `Quoting`, `Notes`). It walks the
  statements of an already-built syntax tree and validates every directive. It
  reads version intervals, with `*` as the wildcard stored as `""`. Paths and
  signatures are destringed and stored in their auto-quoted form. It collects
  every error before deciding whether a file is returned.
- **Canonical formatter** (`Format`). Rules are sorted by path and then by high
  version. One rule is printed as a single line, several as a tab-indented block.
- **Policy evaluator** (`Evaluate`). It builds the path → high → low range maps
  and classifies each module of the build. The outcomes are missing, wrong
  version, violating, or fine; violations take precedence.
- **Graph reader** (`Graph`). It reads the captured output of `go mod graph`,
  keeps each edge's `path@version` target, sorts, and merges adjacent repeats.
- **Error rendering** (`Errors`). It covers `ParserError.Error` and `ErrorList.Error`.

Foreign library functions are fields of a `Library.Lib` value passed in as a
parameter: `semver.Compare`, `module.CanonicalVersion`, `strconv.Quote` and
`strconv.Unquote`, `unicode.IsPrint`, and the text of
`module.InvalidVersionError`. What the proofs need of them is stated as
predicates (`CompareLaws`, `QuoteLaws`, `CanonicalLaws`) in the `requires` of
the lemmas that use them. The Go standard string functions (`strings.Split`,
`Join`, `TrimSpace`, `HasPrefix`, string `<`) are defined in `Text`. Sorting
with a `less` callback is in `Sorting`.

Files: `base.dfy`, `text.dfy`, `sorting.dfy`, `library.dfy`, `syntax.dfy`,
`errors.dfy`, `quoting.dfy`, `intervals.dfy`, `notes.dfy`, `parser.dfy`,
`format.dfy`, `evaluate.dfy`, `graph.dfy`.

Where the code differs from what its documentation suggests, the model follows the code:

- A delimiter `( ) [ ] { } ,` forces quoting only in a string longer than one rune. A lone delimiter is left bare.
- A bracketed interval may mix `*` with a version. Low and high are then one empty and one canonical.

One place deliberately departs from the code. The code computes the note of a comment with the arguments of `strings.TrimPrefix` swapped, so every real comment becomes the note `//` (see Findings). The builder stores the corrected notes instead. The code as written is kept beside it and compared with the corrected version.

## Model

| member | source | states |
|---|---|---|
| Errors.ParserErrorText | auditfile/errors.go:31-35 | the text starts with `file:`; with a line number it starts with `file:line:`; without one the location is followed by the end or a space |
| Errors.ParserErrorTextParts | auditfile/errors.go:31-49 | the text is the location, then the module path, the verb and the cause's text, each led by one space and each only when present |
| Errors.FileLevelErrorText | auditfile/errors.go:31-49 | an error with no position, verb or module renders as `file: message` |
| Errors.LineNumberRecoverable | auditfile/errors.go:31-35 | cutting the text at colons gives back the file name and a decimal string whose value is the line number |
| Errors.ErrorListText | auditfile/errors.go:51-59 | an empty list renders as the empty string, a one-element list as that element's text |
| Errors.ErrorListLines | auditfile/errors.go:51-59 | splitting the list text at newlines gives back each error's text, in list order |
| Quoting.ScanRunes | auditfile/parse.go:315-331 | the rune loop from position i answers true iff a later rune forces quoting or the final empty/comment check holds |
| Quoting.MustQuote | auditfile/parse.go:314-332 | true iff some rune is a space or quote mark, a delimiter in a longer string, or unprintable, or the string is empty or contains `//` or `/*` |
| Quoting.DelimiterQuoting | auditfile/parse.go:320-323 | a string with a delimiter must be quoted iff it is longer than one rune or holds a comment opener |
| Quoting.AutoQuote | auditfile/parse.go:305-310 | a string that need not be quoted is returned as is; otherwise the result opens with `"` exactly when quoting was required |
| Quoting.ParseString | auditfile/parse.go:287-301 | a `"`-led token succeeds iff it unquotes, giving the auto-quoted value; any other token succeeds iff it holds no quote mark |
| Quoting.BareHasNoQuoteMark | auditfile/parse.go:294-299 | a string that needs no quoting has no quote mark and does not open with `"` |
| Quoting.AutoQuoteFixedPoint | auditfile/parse.go:287-310 | destringing the auto-quoted form of any string gives that same form back |
| Quoting.ParseStringIdempotent | auditfile/parse.go:287-301 | whatever parseString accepts, it accepts again unchanged |
| Intervals.ParseVersion | auditfile/parse.go:257-285 | succeeds iff the token destrings to a canonical version or to `*`; the value is the canonical form, empty only for `*`; failures carry verb and path |
| Intervals.WildcardParsesToMarker | auditfile/parse.go:270-283 | the token `*` parses to the empty wildcard marker |
| Intervals.ParseVersionInterval | auditfile/parse.go:334-379 | succeeds iff the tokens are one version or `[ v , v ]`; one token is consumed with low equal to high, or five with the bracketed bounds |
| Intervals.IntervalString | auditfile/parse.go:36-43 | bounds that compare unequal render as `path [low, high]`; bounds that compare equal render as `path low` |
| Intervals.SingleVersionRendering | auditfile/parse.go:36-43 | an interval with equal bounds renders as `path version` |
| Intervals.WildcardRendersEmpty | auditfile/parse.go:36-43 | the wildcard renders with an empty version field, so it does not survive formatting |
| Intervals.IntervalRoundTrip | auditfile/parse.go:334-379 | re-reading the rendered version tokens of an interval with stored bounds gives it back and consumes exactly those tokens |
| Notes.NoteEntryAsWritten | auditfile/parse.go:242-244 | as written, an entry is never longer than the marker `//` and has no white space at either end |
| Notes.ParseNotesAsWritten | auditfile/parse.go:237-255 | as written, no statement gives no notes, and real comments give `//` once per comment, joined by spaces |
| Notes.AsWrittenEntryIsMarker | auditfile/parse.go:242-244 | as written, every comment that is not a prefix of `//` yields the note `//` |
| Notes.NoteEntryStripsMarker | auditfile/parse.go:242-244 | the intended entry of `//text` or `// text` is `text` |
| Notes.ParseNotes | auditfile/parse.go:237-240 | a missing statement has no notes |
| Notes.SingleCommentNotes | auditfile/parse.go:246-254 | a statement with one comment has that comment's entry as its notes |
| Notes.NotesAsWrittenLoseText | auditfile/parse.go:243 | a rule with the comment `// reviewed` gets the note `//` as written, and `reviewed` as intended |
| Notes.NotesListComments | auditfile/parse.go:237-255 | the intended notes split back at spaces into the words of the comments, leading comments first |
| Parser.ParseRule | auditfile/parse.go:188-215 | succeeds iff the arguments are 3 with one version or 7 with a bracketed interval and all strings destring; a wrong count gives the usage error; the rule holds the destrung path, the bounds, the signature, and the corrected notes of its statement rather than those the code computes (see Left out) |
| Parser.RuleRoundTrip | auditfile/parse.go:188-233 | re-reading the tokens of a rule with stored strings and bounds gives the rule back |
| Parser.Add | auditfile/parse.go:157-235 | each directive leaves exactly one trace; errors are only appended; no error iff the directive is acceptable in the current state; audit, trust and violation change exactly as stated |
| Parser.AddLines | auditfile/parse.go:129-133 | the lines of a block leave one trace each, keep earlier errors as a prefix, and leave the audit version alone under a rule verb |
| Parser.AddStmt | auditfile/parse.go:107-134 | one statement leaves one trace per flattened entry and keeps earlier errors as a prefix |
| Parser.AddStmts | auditfile/parse.go:107-135 | the statement loop leaves one trace per flattened entry and keeps earlier errors as a prefix |
| Parser.FileErrors | auditfile/parse.go:137-149 | at most one file-level error, and none iff the audit version is present and equal to "1" |
| Parser.Parse | auditfile/parse.go:97-155 | a failure always carries at least one error |
| Parser.AddStmtsIsAddEntries | auditfile/parse.go:107-135 | the statement loop with its nested block loop equals one loop over the flattened directives and rejected blocks |
| Parser.EntriesWeight | auditfile/parse.go:157-235 | every entry adds exactly one error, rule or audit version, and earlier errors are kept as a prefix |
| Parser.EntriesRules | auditfile/parse.go:216-233 | the trust and violation lists gain exactly the well-shaped rules of their verb, in encounter order |
| Parser.EntriesAudit | auditfile/parse.go:173-186 | the audit version is the first audit directive with exactly one argument; later ones do not replace it |
| Parser.EntriesNoErrors | auditfile/parse.go:157-235 | no error is added iff every directive is well formed and there is at most one audit directive |
| Parser.EntryError | auditfile/parse.go:112-128 | an entry has at most one error, none iff it is well formed and is not an audit directive after a kept audit version; the error sits at the entry's start, named by the file for blocks and the syntax tree for directives |
| Parser.AddEntryIsEntryError | auditfile/parse.go:157-235 | one directive appends exactly the reference error and keeps an audit version exactly when the reference says |
| Parser.EntriesErrors | auditfile/parse.go:105-135 | the errors after the statement loop are the earlier ones followed by each entry's reference error, in encounter order |
| Parser.ParseBuilder | auditfile/parse.go:97-135 | after the statement loop the lists, audit version and error count are those of the reference definitions over the entries |
| Parser.ParseSucceedsIff | auditfile/parse.go:97-155 | a file is returned iff every directive is well formed, there is exactly one audit directive and its version is "1"; the file holds that version and all rules in order |
| Parser.MissingAuditReportedLast | auditfile/parse.go:137-142 | without an audit directive the last error is `expected 'audit' directive` at the zero position |
| Parser.WrongAuditVersionReportedLast | auditfile/parse.go:143-149 | a kept audit version other than "1" is the last error, at the directive's start |
| Parser.ParseErrorsInOrder | auditfile/parse.go:105-153 | Parse fails iff the entries' reference errors followed by the file-level error are non-empty, and then returns exactly that list |
| Parser.ParseErrorCount | auditfile/parse.go:105-153 | the errors number the entries that kept nothing, plus the file-level error if any |
| Parser.EveryFaultReported | auditfile/parse.go:105-153 | with no audit and no accepted rule, every entry is reported and the missing audit once more |
| Parser.BadBlockAddsNothing | auditfile/parse.go:112-128 | a block with more than one header token or another verb adds one `unknown block type` error and none of its lines |
| Parser.TrustBlockRules | auditfile/parse.go:129-133 | a trust block adds the rules of its well-shaped lines in order, and no violation or audit |
| Parser.ParseBlankFile | auditfile/parse_test.go:15-19 | an empty file fails with the single error text `testfile.audit: expected 'audit' directive` |
| Parser.ParseAuditOne | auditfile/parse_test.go:20-30 | `audit 1` gives a file with version "1" and no rules |
| Format.InlineCommentSplits | auditfile/parse.go:65-72 | space-free trailing comments that join to a non-empty string render as a leading space followed by text that splits back at spaces into exactly those comments |
| Format.RuleLines | auditfile/parse.go:56-89 | one line per leading comment, then the statement line, each behind a tab inside a block |
| Format.RuleStringLines | auditfile/parse.go:56-89 | splitting a rendered rule at newlines gives back its comment lines and its statement line |
| Format.BlockEntryLinesTabbed | auditfile/parse.go:82-86 | every line of a block entry starts with a tab |
| Format.RuleLessIsStrictWeakOrder | auditfile/format.go:47-56 | the sort callback, by path then high version, is a strict weak order when semver comparison is a total preorder |
| Format.SortRules | auditfile/format.go:47-67 | the sorted rules are a permutation of the input, ordered by path and high version |
| Format.Section | auditfile/format.go:17-28 | no rule prints nothing; one rule prints its own line; more print a `verb (` header, verbless tabbed entries and `)` |
| Format.FormatFile | auditfile/format.go:10-45 | the formatted text is never empty and always ends with a newline |
| Format.FormatAuditPrefix | auditfile/format.go:12-14 | with an audit version the text opens with `audit V` and a blank line |
| Format.FormatAuditOnly | auditfile/format.go:10-45 | `audit 1` with no rules formats to `audit 1\n\n` |
| Format.FormatSectionsInOrder | auditfile/format.go:10-45 | the text is the audit line, a blank line, the trust section, then the violation section, and a final newline |
| Format.FormatSingleTrust | auditfile/format.go:20-21 | a file with only one trust rule is that rule's standalone text and a newline |
| Format.FormatIgnoresRuleOrder | auditfile/format.go:47-67 | files with the same rules in any order format identically when no two rules share a path and high version |
| Evaluate.PutEffect | main.go:36-40 | recording a rule adds its path and (path, high) pair, sets that pair's low, and leaves every other entry as it was |
| Evaluate.RangesPaths | main.go:31-41 | the paths of the range map are exactly the paths of the rules |
| Evaluate.RangesKeys | main.go:31-41 | the (path, high) pairs of the range map are exactly those of the rules |
| Evaluate.RangesLows | main.go:31-41 | each pair's low version is that of the last rule with the pair, later rules overwriting earlier ones |
| Evaluate.RangesOfRules | main.go:31-53 | the range map holds exactly the rules' paths and (path, high) pairs, each low taken from the last rule with that pair |
| Evaluate.VersionInRanges | main.go:93-105 | true iff some entry is the catch-all or brackets the version, whatever the order entries are visited in |
| Evaluate.CoveredByRules | main.go:36-40 | a path's ranges cover a version iff a rule that was not overwritten covers it |
| Evaluate.WildcardCoversAll | main.go:95-98 | a wildcard rule covers every version of its path |
| Evaluate.Classify | main.go:59-76 | violating iff a violation range covers; otherwise fine or wrong-version by the trust ranges when the path has any, else missing |
| Evaluate.ClassifyModule | main.go:59-76 | the checks made for one module, with `versionInRanges` visiting entries in any order, give its verdict under `Classify` |
| Evaluate.AuditModules | main.go:55-76 | the three lists are the modules with each verdict, in input order, as `path@version` |
| Evaluate.ReportsPartition | main.go:59-76 | every module is in exactly one of the three lists or passes |
| Evaluate.ReportEmptyIff | main.go:59-76 | a list is empty iff no module has its verdict |
| Evaluate.AuditPassesIff | main.go:78-81 | the audit passes silently iff every module is fine |
| Evaluate.ViolationTakesPrecedence | main.go:61-66 | a wildcard violation makes the module violating whatever the trust rules say |
| Evaluate.UntrustedPathIsMissing | main.go:68-75 | a path without trust rules and no covering violation is missing |
| Graph.ParseEdge | graph/graph.go:43-52 | succeeds iff the line has two space-separated fields and the second has two `@`-separated parts; otherwise the stated error |
| Graph.EdgeRoundTrip | graph/graph.go:43-52 | the line `from path@version` reads back as that target |
| Graph.EdgeShape | graph/graph.go:43-52 | every line that reads as an edge is `from path@version` for the target it gave |
| Graph.CollectEdges | graph/graph.go:32-53 | succeeds iff every non-empty line is an edge; otherwise the error is that of the first bad line |
| Graph.CollectEdgesTargets | graph/graph.go:32-53 | on success, the result has one target per non-blank line, each the target that line reads as, in order |
| Graph.Dedup | graph/graph.go:64-73 | keeps only input entries, keeps every entry other than the starting one, never starts with it, and has no two equal neighbours |
| Graph.DedupIsSubsequence | graph/graph.go:64-73 | the merged list is a subsequence of its input and holds each entry at most as often |
| Graph.DedupKeepsOrder | graph/graph.go:64-73 | the merged list keeps the order of a sorted input |
| Graph.ZeroModuleDropped | graph/graph.go:66-72 | a zero module that is the only empty-path entry of a sorted list is dropped |
| Graph.GraphModules | graph/graph.go:32-75 | fails iff some line is not an edge; the result holds only edge targets and all but the zero module, with no equal neighbours, sorted by path and version |
| Graph.GraphDropsZeroModule | graph/graph.go:66-72 | an empty-path, empty-version target never reaches the result when no other target has an empty path |
| Graph.GraphIgnoresEdgeOrder | graph/graph.go:55-62 | the same targets in any order give the same result when no two different targets tie |
| Library.PathVersionLessLaws | auditfile/format.go:48-55 | ordering by path and then semver is asymmetric with transitive incomparability |
| Library.ModuleLessIsStrictWeakOrder | graph/graph.go:55-62 | the graph sort callback is a strict weak order when semver comparison is a total preorder |
| Sorting.InsertKeepsOrder | auditfile/format.go:48-55 | inserting into a list sorted by a strict weak order keeps it sorted |
| Sorting.SortBy | auditfile/format.go:48-55 | the result is a permutation of the input, sorted whenever the callback is a strict weak order |
| Sorting.SortedUnique | auditfile/format.go:48-55 | two sorted permutations of a list without ties are the same list |
| Sorting.SortByIgnoresInputOrder | auditfile/format.go:48-55 | sorting two permutations of a list without ties gives the same result |

## Left out

- The lexer and syntax builder are not part of this model. `parse(file, data)`, the token positions and `LexError.Error` (which needs `Position.String`) are absent. The syntax tree is an input (`Syntax.FileSyntax`).
- Parser.ParseRule: stores the corrected notes (`Notes.ParseNotes`) rather than the notes the code computes (`Notes.ParseNotesAsWritten`, auditfile/parse.go:216 and :243). For a rule with a comment the source's `Notes` is `//` per comment, where the model's is the comment text. `Notes.NotesAsWrittenLoseText` states the difference on a concrete rule.
- Parser.Parse: requires every statement to have a verb token. The syntax builder guarantees this, and the source indexes token 0 unchecked.
- `Syntax.Position` keeps only line and column.
- The library functions named above are parameters. Their behaviour is only what the stated laws say. `module.Version.String` is written out as `path@version`, or the bare path when the version is empty.
- Strings are sequences of runes. Go's byte length and byte order agree with rune length and rune order wherever the model uses them:
  - the length check in MustQuote applies only to strings that hold an ASCII delimiter;
  - UTF-8 byte order equals rune order.
- Running `go mod graph`, reading `go.audit`, printing the reports, `panic` and `os.Exit` are I/O and are left out.
- nil rules are skipped by the evaluator. A rule list here cannot hold nil.
- `parseVersion` rewrites the version token in the syntax tree in place. This is left out because the formatter reads only comments from the tree.
- The sort functions reorder the file's own rule slices in place. The model returns new lists instead.
- `sort.Slice` is not stable. The model sorts by insertion. For lists without ties the order is unique (`Sorting.SortedUnique`), so any correct sort agrees. For lists with ties the Go order is unspecified and may differ.
- The full `parse(format(file)) == file` round trip needs the lexer. It is stated on tokens instead (`Parser.RuleRoundTrip`, `Intervals.IntervalRoundTrip`). Wildcard intervals do not survive formatting (`Intervals.WildcardRendersEmpty`).
- Go map iteration order is not modelled. `Evaluate.VersionInRanges` picks entries arbitrarily, and its result is proved independent of the choice.

## Findings

| source | as written | input that shows it | evidently intended | confidence | as-written member | corrected member |
|---|---|---|---|---|---|---|
| auditfile/parse.go:243 | `strings.TrimPrefix` is given the marker `//` as the string and the comment as the prefix, so every real comment becomes the note `//` | a rule statement whose one leading comment is `// reviewed` gets the notes `//` | trim the marker from the comment, giving the notes `reviewed` | high; not executed | Notes.NotesAsWrittenLoseText | Notes.NotesListComments |

The builder uses the corrected entry (`Notes.NoteEntry`, via `Notes.ParseNotes`).
The code as written is kept as `Notes.NoteEntryAsWritten` and `Notes.ParseNotesAsWritten`.
