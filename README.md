# vacuum: a verified model of the dead-function finder

`wand vacuum` looks for Solidity functions that nobody uses. It can also delete them. For every `.sol` file it analyses, it:

1. extracts the declared function names with the regex `\bfunction\s+([a-zA-Z0-9_]+)\s*\(`;
2. counts, over every `.sol` file under the root directory, how many non-overlapping substring matches each name has;
3. marks as unused every name that is counted at most once and that no `--ignore` pattern matches;
4. with `--delete`, removes each unused function from the file in list order. One removal cuts out the declaration and its body, matched by brace counting. The cut starts at the last `/**` anywhere before the declaration when the trimmed text from that `/**` up to the declaration ends with `*/`, and at the declaration otherwise. It is then widened back to the start of its line. At the other end the cut takes in the line feed right after the closing `}`, if that is the next character.

This project models those four steps of `src/commands/vacuum.rs` in Dafny. It states what each step computes and proves the properties the code relies on. Text is ASCII, as `seq<char>`.

Modules, one per piece of the program:

- `Wrappers`: `Option`.
- `Text`: the character classes and the Rust string operations the code uses. These are `\s`, `\b`, `trim`, `starts_with`, `ends_with`, `rfind` and `matches(..).count()`.
- `Declarations`: the declaration regex written out as a scanner. It covers what `captures_iter` returns (`extract_functions`) and the leftmost search `find` that the removal uses.
- `Occurrences`: `count_function_occurrences`, as an imperative map accumulation over the files' contents.
- `Classifier`: `should_ignore_function` and the unused filter. The regex engine is a parameter: which patterns compile, and what a compiled pattern matches.
- `Removal`: the span locator and the deletion loop of `remove_unused_functions`. The loops are methods. Each is proved equal to a functional specification of one excision step and of the whole pass.
- `Vacuum`: `process_single_file`, which ties the pieces together.

Behaviour of the code that the model keeps as written:

- A declaration without a body (`function f();`) gets no special case. The code scans forward only for `{` (line 111), so the span runs on to the next brace block, wherever it is. `Removal.BodilessDeclarationUnchanged` covers the case where no brace follows.
- The doc-block test (lines 134-145) looks only at the text from the last `/**` before the declaration. The `*/` that ends it may close a plain `/* ... */` comment, with other code in between. `Removal.DocBlockReachesAcrossCode` shows a text where the start computed for the second of two functions moves back to the `/**` above the first one. `Removal.RemovingSecondRemovesFirst` proves that removing the second function from that text leaves it empty, the first function included.
- The `starts_with("/**")` test on line 137 always passes after `rfind("/**")`. The model keeps the test, and `Removal.DocOpenTestRedundant` proves it cannot fail.
- A name listed twice in one file is counted once per listing. `count_function_occurrences` adds every file's matches for each entry of the list, so the count is the listing multiplicity times the total matches.

## Model

| member | source | states |
|---|---|---|
| Text.TrimStart | src/commands/vacuum.rs:136 | the result is a suffix of the input, every dropped character is whitespace, and the result does not start with whitespace |
| Text.TrimEnd | src/commands/vacuum.rs:136 | the result is a prefix of the input, every dropped character is whitespace, and the result does not end with whitespace |
| Text.Trim | src/commands/vacuum.rs:136 | `trim` never lengthens the text, leaves no whitespace at either end, and is empty exactly when the text is all whitespace |
| Text.TrimIsMiddle | src/commands/vacuum.rs:136 | `trim` returns the input with its leading and trailing whitespace dropped: a stretch of the input with only whitespace before and after it |
| Text.TrimShape | src/commands/vacuum.rs:136 | trimming the start and then the end gives that stretch, starting where the leading whitespace ends |
| Text.TrimKeepsNonSpacePrefix | src/commands/vacuum.rs:136-137 | trimming keeps a leading run of non-whitespace characters at the front |
| Text.RFindFrom | src/commands/vacuum.rs:135 | the candidate found is an occurrence with no occurrence to its right up to the search bound; None means no occurrence up to the bound |
| Text.RFind | src/commands/vacuum.rs:135-145 | `rfind` returns the rightmost occurrence, and None exactly when the needle does not occur |
| Text.CountFromPositive | src/commands/vacuum.rs:83 | the left-to-right match count from k is positive exactly when the needle occurs at or after k |
| Text.CountMatches | src/commands/vacuum.rs:83 | `matches("").count()` counts the empty needle at every position, one more than the text length |
| Text.CountMatchesPositive | src/commands/vacuum.rs:83 | `matches(..).count()` is positive exactly when the needle occurs |
| Text.CountFromSingle | src/commands/vacuum.rs:83 | a needle that occurs at exactly one position from k on is counted once |
| Text.SingleOccurrenceCountsOnce | src/commands/vacuum.rs:83 | a needle that occurs at exactly one position is counted once |
| Text.CountFromTwo | src/commands/vacuum.rs:83 | two non-overlapping occurrences from k on are both counted |
| Text.DisjointOccurrencesCountTwice | src/commands/vacuum.rs:83 | two non-overlapping occurrences make the count at least 2 |
| Declarations.SpaceEnd | src/commands/vacuum.rs:62 | `\s*` ends at the first non-whitespace character from k, after a run of whitespace only |
| Declarations.IdentEnd | src/commands/vacuum.rs:62 | `[a-zA-Z0-9_]*` ends at the first non-identifier character from k, after a run of identifier characters only |
| Declarations.DeclAt | src/commands/vacuum.rs:62 | a match found at i starts at i and lies within the text |
| Declarations.DeclAfterKeyword | src/commands/vacuum.rs:62 | the rest of the pattern after `\bfunction` yields a match starting at i that lies within the text |
| Declarations.DeclAtSound | src/commands/vacuum.rs:62 | every match the scanner reports is accepted by the regex: boundary, keyword, whitespace, non-empty identifier, optional whitespace, `(` |
| Declarations.DeclAtComplete | src/commands/vacuum.rs:62 | every regex match starting at a position is the one the scanner reports there |
| Declarations.DeclAtIffMatch | src/commands/vacuum.rs:62 | the scanner reports d at i if and only if d is a regex match starting at i |
| Declarations.KeywordIsWord | src/commands/vacuum.rs:62 | the keyword starts with `f` and consists of word characters |
| Declarations.NoKeywordAt | src/commands/vacuum.rs:62 | the keyword cannot start at a character other than `f` |
| Declarations.NoMatchAtName | src/commands/vacuum.rs:62 | no match starts at the captured name of another match |
| Declarations.NoOverlap | src/commands/vacuum.rs:62-65 | no match starts strictly inside another match |
| Declarations.FindFrom | src/commands/vacuum.rs:103-106 | `find` returns the leftmost match at or after p; None means no match from p on |
| Declarations.SkipNoDecls | src/commands/vacuum.rs:64-66 | positions without a match contribute no names |
| Declarations.NamesFromAtMatch | src/commands/vacuum.rs:64-66 | at a match, the names are the captured name followed by the names after the match's end |
| Declarations.SkipNoMatches | src/commands/vacuum.rs:64-66 | a stretch of positions where the leftmost search finds no match contributes no names |
| Declarations.ScanNames | src/commands/vacuum.rs:64-66 | resuming after each match, as `captures_iter` does, lists the captured name of the match at every position, in order |
| Declarations.ExtractFunctions | src/commands/vacuum.rs:60-68 | `extract_functions` returns the captured names of all matches in source order, duplicates kept |
| Declarations.NamesFromMembership | src/commands/vacuum.rs:64-67 | a name is listed from k on exactly when a match at or after k captures it |
| Declarations.ExtractedNamesAreDeclared | src/commands/vacuum.rs:60-68 | a name is extracted if and only if some regex match captures it |
| Declarations.MatchOfExtractedName | src/commands/vacuum.rs:60-68 | every extracted name comes with a regex match that captures it |
| Declarations.CapturedIsIdentifier | src/commands/vacuum.rs:62 | a captured name is a non-empty `[a-zA-Z0-9_]+` identifier |
| Declarations.ExtractedNameIsIdentifier | src/commands/vacuum.rs:60-68 | every extracted name is a non-empty identifier that occurs in the text |
| Declarations.AbsentNameNotExtracted | src/commands/vacuum.rs:60-68 | a name that does not occur in the text is not extracted |
| Occurrences.CountOccurrences | src/commands/vacuum.rs:70-89 | the map has a key for exactly the listed names, and each maps to its listing multiplicity times its total matches over all files |
| Occurrences.AddFileMatches | src/commands/vacuum.rs:82-84 | one file's pass keeps the keys and adds multiplicity × the file's matches to every entry |
| Occurrences.TotalMatchesAppend | src/commands/vacuum.rs:77-86 | per-file partial counts add up over any split of the file list |
| Occurrences.TotalMatchesCovers | src/commands/vacuum.rs:77-86 | a file's own matches are part of the total |
| Occurrences.AbsentNameTotalsZero | src/commands/vacuum.rs:74-86 | a non-empty name found in no file totals 0, so its entry stays at its initial 0 |
| Occurrences.DeclarationCountsItself | src/commands/vacuum.rs:70-89 | a declared name is counted at least once when its own file is scanned, because the declaration is an occurrence |
| Occurrences.SingleDeclarationCountsOne | src/commands/vacuum.rs:70-89 | a name listed once that occurs at exactly one position of one file is counted exactly once |
| Classifier.AnyHitFrom | src/commands/vacuum.rs:91-95 | true exactly when some pattern from position k on compiles and matches the name |
| Classifier.ShouldIgnore | src/commands/vacuum.rs:91-95 | a name is ignored exactly when some pattern compiles and matches it |
| Classifier.NoValidPatternIgnoresNothing | src/commands/vacuum.rs:94 | patterns that do not compile are dropped, so with none compiling nothing is ignored |
| Classifier.UnusedIndicesSelect | src/commands/vacuum.rs:182-189 | each kept position holds the corresponding entry of the filter's result |
| Classifier.UnusedFunctions | src/commands/vacuum.rs:182-189 | the filter never marks more names than are declared |
| Classifier.UnusedIndicesIncrease | src/commands/vacuum.rs:182-189 | the kept positions increase strictly |
| Classifier.UnusedIndicesExact | src/commands/vacuum.rs:182-189 | a position is kept exactly when its function is counted at most once and not ignored |
| Classifier.UnusedPositions | src/commands/vacuum.rs:182-189 | the unused list is an order-preserving subsequence of the declared list, keeping exactly the positions that pass the test |
| Classifier.UnusedMultiplicity | src/commands/vacuum.rs:182-189 | an unused name appears as often as it is declared; any other name does not appear |
| Classifier.UnusedMembership | src/commands/vacuum.rs:182-189 | a name is marked if and only if it is declared, counted at most once and matched by no ignore pattern |
| Removal.NextOpenBrace | src/commands/vacuum.rs:110-113 | the scan stops at the first `{` from the match end, or at the end of the text, with no `{` before it |
| Removal.CloseFromSpec | src/commands/vacuum.rs:116-129 | the depth counter stops where the depth first returns to 0, just past a `}`; if it never does, the depth stays positive to the end |
| Removal.ClosingBraceSpec | src/commands/vacuum.rs:115-131 | the closing brace is one past the `}` where the depth first returns to 0, the depth stays at least 1 over the body, and when the braces never balance the depth stays positive to the end |
| Removal.ClosingBrace | src/commands/vacuum.rs:115-129 | a closing position found lies past the `{`, within the text, where the depth is back to 0 |
| Removal.NatspecStart | src/commands/vacuum.rs:134-140 | the span start never moves past the declaration start |
| Removal.LineStart | src/commands/vacuum.rs:143-145 | the line start is never past the position it starts from |
| Removal.SpanWithEnd | src/commands/vacuum.rs:131-157 | `line_start ≤ natspec_start ≤ start_pos < match end ≤ open < end_pos ≤ cut ≤ len` |
| Removal.SpanAfter | src/commands/vacuum.rs:110-157 | a resolved span is ordered within the text and belongs to the given match |
| Removal.LocateSpan | src/commands/vacuum.rs:106-157 | a resolved span is ordered within the text |
| Removal.Excise | src/commands/vacuum.rs:147-159 | `content[..line_start]` and `content[cut..]` are kept as they are, and the result is strictly shorter |
| Removal.FirstNamedMatchIsFound | src/commands/vacuum.rs:102-106 | `find` returns d exactly when d is a match capturing the name and no match of the name starts before it |
| Removal.RemoveStep | src/commands/vacuum.rs:106-163 | a step changes the text exactly when the span resolves, and then it shortens it |
| Removal.RemoveAll | src/commands/vacuum.rs:101-166 | the pass never lengthens the text |
| Removal.RemovedNames | src/commands/vacuum.rs:101-166 | only listed names are announced, each at most as often as it is listed |
| Removal.UndeclaredNameUnchanged | src/commands/vacuum.rs:106 | with no declaration of the name, nothing resolves and the text is left alone |
| Removal.BodilessDeclarationUnchanged | src/commands/vacuum.rs:110-115 | with no `{` after the first declaration, nothing resolves and the text is left alone |
| Removal.UnbalancedBodyUnchanged | src/commands/vacuum.rs:115-129 | when the braces never balance before the end of the text, nothing resolves and the text is left alone |
| Removal.ResolvedParts | src/commands/vacuum.rs:106-157 | a resolved span is built from the first match, the first `{` after it and the closing brace |
| Removal.ResolvedSpanDecl | src/commands/vacuum.rs:106-107 | a resolved span starts at the first declaration of the name |
| Removal.ResolvedSpanBody | src/commands/vacuum.rs:110-156 | the span's `{` is the first after the match; its end is one past the `}` where the depth first returns to 0, with the depth at least 1 inside; the cut takes in the line feed right after the `}` when that is the next character |
| Removal.ResolvedSpanStart | src/commands/vacuum.rs:134-145 | the span starts at a line start, with no line feed from the line start up to the natspec start; it reaches back past the declaration only to the last `/**` before it, and only when the trimmed text from there ends with `*/` |
| Removal.NatspecStartSpec | src/commands/vacuum.rs:134-140 | the start moves back only to the last `/**` before the declaration, and only when the trimmed text from there ends with `*/` |
| Removal.LineStartSpec | src/commands/vacuum.rs:143-145 | the line start is 0 or one past a line feed, with no line feed from it up to the given position |
| Removal.DocOpenTestRedundant | src/commands/vacuum.rs:135-139 | the `starts_with("/**")` test never fails, so only the `*/` suffix test decides |
| Removal.DocBlockReachesAcrossCode | src/commands/vacuum.rs:134-145 | in a text holding `/** A */`, function `a`, a plain `/* B */` comment and function `b`, the start computed for `b` moves back to offset 0, the line start of the `/**` above `a` |
| Removal.RemovingSecondRemovesFirst | src/commands/vacuum.rs:101-163 | in that text the span of `b` runs from offset 0 to the end, so the step removing `b` leaves the empty text, with `a` and both comments gone |
| Removal.AcrossCodeLastDocOpen | src/commands/vacuum.rs:135 | in that text the last `/**` before `b` is the one above `a` |
| Removal.AcrossCodeTrimmed | src/commands/vacuum.rs:136-138 | the trimmed text from that `/**` up to `b` starts with `/**` and ends with the `*/` of the plain comment |
| Removal.RemovedNameGone | src/commands/vacuum.rs:101-159 | removing a function whose name is counted once leaves no occurrence of it: it is then counted 0 and no longer extracted |
| Removal.OnlyOccurrenceIsDecl | src/commands/vacuum.rs:83 | a declared name counted once occurs only at its declaration |
| Removal.WordOccurrencesApart | src/commands/vacuum.rs:83 | an identifier occurrence with non-word characters on both sides overlaps no other occurrence of it |
| Removal.ExcisedOccurrenceOrigin | src/commands/vacuum.rs:147-159 | every identifier occurrence after the cut is an occurrence before it, in the kept prefix or moved back from the kept suffix |
| Removal.NoOccurrenceAfterCut | src/commands/vacuum.rs:147-159 | a name whose occurrences all lie inside the cut does not occur in the result |
| Removal.StepKeepsAtMostOnce | src/commands/vacuum.rs:106-159 | a step never makes an identifier occur at more than one position |
| Removal.ExciseKeepsAtMostOnce | src/commands/vacuum.rs:147-159 | an excision at a line start never makes an identifier occur at more than one position |
| Removal.StepKeepsAbsent | src/commands/vacuum.rs:106-159 | a step never makes an absent identifier occur |
| Removal.ExciseKeepsAbsent | src/commands/vacuum.rs:147-159 | an excision at a line start never makes an absent identifier occur |
| Removal.StepRemovesSoleOccurrence | src/commands/vacuum.rs:106-159 | removing a name that occurs at most once leaves it occurring nowhere |
| Removal.RemoveAllShrinks | src/commands/vacuum.rs:101-166 | each announced removal shortens the buffer, which never grows; with no removals the text written is the text read |
| Removal.RemoveAllUnchangedIff | src/commands/vacuum.rs:101-166 | the text written equals the text read exactly when no removal was announced |
| Removal.RemoveAllKeepsAtMostOnce | src/commands/vacuum.rs:101-166 | no step of the pass makes an identifier occur at more than one position |
| Removal.RemovedSoleNamesGone | src/commands/vacuum.rs:101-166 | an announced name that occurred at most once does not occur in the text written |
| Removal.SkipToBrace | src/commands/vacuum.rs:110-113 | the loop stops at the first `{` at or after the match end, or at the end of the text |
| Removal.MatchBraces | src/commands/vacuum.rs:115-131 | the brace-counting loop returns one past the matching `}`, or None when the text ends first |
| Removal.FindSpan | src/commands/vacuum.rs:102-157 | the span located in the current buffer is the specified one |
| Removal.RemoveUnusedFunctions | src/commands/vacuum.rs:98-170 | the buffer written is the result of all steps in list order, and the names announced are those whose span resolved |
| Vacuum.ProcessSingleFile | src/commands/vacuum.rs:172-215 | one report line per declared name with its count and ignore flag; the marked names are the filter's result; the text is written exactly when deletion is on and something is marked; the total returned is the number marked |
| Vacuum.BuildReport | src/commands/vacuum.rs:191-199 | one line per declared name, in order, duplicates included, with the count read from the map (0 when missing) and the ignore flag |
| Vacuum.CountsAreCountMap | src/commands/vacuum.rs:179-185 | a map with the counter's keys and values is the count map of the declared names |
| Vacuum.MarkedIff | src/commands/vacuum.rs:178-189 | a function is marked exactly when it is declared in the file, counted at most once over the root, and matched by no ignore pattern |
| Vacuum.SelfScannedMarkedIsSingle | src/commands/vacuum.rs:178-189 | when the file lies under the root, a marked function is declared once, and its name occurs once over the root, at its declaration |
| Vacuum.DeletedFunctionsGone | src/commands/vacuum.rs:201-209 | when the file lies under the root, a function announced as removed does not occur in the text written back, so a later run neither counts nor extracts it |

## Left out

- `run` and `VacuumArgs` (lines 9-58) are not modelled: argument parsing, the `--file`/`--dir` checks, the extension tests, the directory walk and the running total. The walk is a parameter, the sequence of the root's `.sol` file contents in walk order. The default ignore pattern `^test` is set in the argument definitions and is not part of this model.
- `src/main.rs` only dispatches subcommands and is not part of this model.
- `fs::read_to_string`, `fs::write` and their I/O errors are not modelled. `println!` output is not modelled either. A file's content is an input. The text written back is an output of `ProcessSingleFile` and `RemoveUnusedFunctions`. The report is a sequence of `ReportLine` values.
- The `regex` crate is a parameter. `IgnoreRules` says which patterns compile, since invalid ones are skipped (line 94), and what a compiled pattern matches. The declaration regex is written out as a scanner.
- `Declarations.FindFrom`: `regex::escape(name)` (line 102) is modelled as "a declaration match whose captured name equals the name". This is exact for identifiers, the only names `extract_functions` produces. Names with other characters are not modelled.
- Unicode is not modelled. The text is ASCII, which is where the code's byte offsets (`mat.start()`, `len()`, slicing) and `chars().nth` agree. `\s`, `\b` and `trim` are restricted to ASCII.
- `usize` overflow of counts and offsets is not modelled. All integers are unbounded.
- The run processes files one after another and rereads the root for every file. Deletions in an earlier file therefore change later files' counts. Only a single file's processing is modelled.
- A body-less declaration takes in the next brace block. The model keeps this behaviour of the code rather than ending the span at a semicolon.
