# svnty core, modelled in Dafny

svnty is a terminal front end for Subversion. Its core state is the
status panel's working-copy model (`svn/svn.go`). It holds five fixed
sections (Unversioned, Unstaged, Staged, Ignored, Issues) of paths with
status runes and expansion flags. The model also covers:

- how `svn status` entries are routed into those sections;
- the per-path cache of `svn diff` lines;
- the capped, newest-first commit-message history (`svn/history.go`);
- the commit panel's history list entries (`commit/commit.go`);
- the text-block joining used to lay the panels out (`tui/join.go`).

The project has six modules:

- `Wrappers`: Option and Result.
- `Text`: the parts of Go's `strings`, `bytes` and `fmt` that the code relies on. A Go string is a Dafny `string` with one character per byte.
- `Svn`, `History`, `Commit` and `Join`: one per core file.

State that the Go code updates in place is a class:

- `Svn.RepoStatus` holds the array of five sections.
- `Svn.RealService` holds the diff cache. A nil Go map is `None`.
- `History.CommitHistory` holds the message slice.
- `Commit.CommitModel` holds the draft text and the history.

Each state-changing method is specified by a function on values: `Cleared`, `Appended`, `Refreshed`, `DiffFetched` and `Pushed` among them. The join functions change no state. `JoinHorizontal` and `JoinVertical` are methods because the Go code builds its result in loops; their results are specified by the functions `HorizontalRows` and `VerticalRows`. The properties of the source are lemmas about these functions.

The join code depends on two library calls: the display width of a line (`ansi.StringWidth`) and the fill style's rendering of padding (`fill.Render`). Both are parameters, gathered in a `Join.Style`. Some lemmas need more about them, so they assume one or both of these:

- padding renders on one line (`RendersOnOneLine`);
- widths add up and `k` spaces render `k` wide (`Measures`).

A position along an axis is `Start` (Top or Left), `End` (Bottom or Right), or `Between(share)`. `share(n)` is the number of the `n` padding units placed before the text. The program computes it by rounding a float; here it is any function with `share(n) <= n`.

Running the `svn` binary and decoding its XML are outside the model. `FetchStatus` takes the decoded document, or the failure to obtain it. `FetchDiff` takes the command's output, or its failure.

Cursor movement belongs to the status panel, which is not part of this model. Of the navigation it relies on, the model covers only the linear searches `NextNonEmptySection` and `PrevNonEmptySection` (svn/svn.go:335-351).

## Model

| member | source | states |
|---|---|---|
| Text.Index | svn/svn.go:203-209 | `bytes.Index`: the result is the first position where the pattern occurs, or -1 when it occurs nowhere |
| Text.ReplaceCRLFShape | svn/svn.go:200 | the result is no longer than the text and has as many newlines; a text without carriage returns is unchanged |
| Text.ReplaceCRLFLines | svn/svn.go:200 | normalising CR LF to LF keeps the lines of the text and only drops the carriage return that ended each line |
| Text.Split | tui/join.go:12 | there is at least one piece and no piece holds a newline |
| Text.SplitPieces | tui/join.go:12 | there is one more piece than the text has newlines |
| Text.JoinSplit | tui/join.go:12 | `strings.Split` on "\n" loses nothing: joining the pieces with "\n" gives back the text |
| Text.SplitJoin | tui/join.go:12 | joining newline-free lines and splitting again gives back the same lines |
| Text.NewlinesToSpaces | commit/commit.go:53 | same length; every newline becomes one space and every other byte is kept; the result has no newline |
| Text.Decimal | commit/commit.go:82 | `%d` of a natural number: at least one digit, all digits, no leading zero |
| Text.ParseDecimalOfDecimal | commit/commit.go:82 | reading the decimal text back gives the number |
| Svn.StatusToRune | svn/svn.go:253-278 | the flag is true exactly for the ten known words; each known word maps to its rune (A C D I M R X ? ! ~); any other word gives ' ' |
| Svn.WordOfRuneOfWord | svn/svn.go:253-278 | the rune of every known word reads back as that word |
| Svn.StatusRuneInjective | svn/svn.go:253-278 | two different known words never share a rune |
| Svn.EntryToPathStatus | svn/svn.go:78-85 | success exactly when the word is known, giving the entry's path, the word's rune and a collapsed flag; otherwise the invalid-status error naming word and path |
| Svn.TargetSectionCoversKnownWords | svn/svn.go:110-119 | the routing switch picks a section exactly for the known words, always a real section and never Staged |
| Svn.TargetSectionByRune | svn/svn.go:110-119 | the section agrees with the rune: Unversioned exactly for '?', Unstaged for A D M R !, Issues for C X ~ and Ignored for I |
| Svn.FirstInvalid | svn/svn.go:104-108 | every entry before the returned position has a known word, and the entry at it (if any) does not |
| Svn.RoutedInto | svn/svn.go:104-120 | each section's paths become its old paths followed by the entries routed to it, in order; titles and flags unchanged |
| Svn.StagedEntries | svn/svn.go:122-123 | an entry is among the staged entries exactly when it belongs to a change list named "staged" |
| Svn.StagedInto | svn/svn.go:122-132 | only Staged grows, by the converted entries in order; every other section is unchanged |
| Svn.Refreshed | svn/svn.go:87-135 | a refresh keeps all five sections, their titles and their expansion flags |
| Svn.RoutedIntoStep | svn/svn.go:104-119 | routing one more known entry is one `Append` to the section its word names |
| Svn.StagedIntoStep | svn/svn.go:124-129 | taking one more staged entry is one `Append` to Staged |
| Svn.RoutedPartition | svn/svn.go:104-120 | when every target word is known: Staged gets no target entry, and the other four sections together get exactly as many paths as there are entries |
| Svn.RoutedContains | svn/svn.go:104-120 | every target entry with a known word ends up among the paths of the section its word names |
| Svn.NoStagedList | svn/svn.go:122-123 | with no change list named "staged" there are no staged entries |
| Svn.NoStagedListLeavesStagedEmpty | svn/svn.go:87-135 | with no change list named "staged", a successful refresh leaves Staged empty |
| Svn.InvalidTargetStops | svn/svn.go:104-108 | an unknown word in the target returns that entry's error; every section holds exactly the entries routed before it, and Staged is empty |
| Svn.ZeroSections | svn/svn.go:312-314 | the zero value has five sections, each untitled, empty and collapsed |
| Svn.Cleared | svn/svn.go:377-381 | every section loses all its paths and keeps its title and expansion flag |
| Svn.Appended | svn/svn.go:373-375 | one path is added at the end of one section; nothing else changes |
| Svn.Initialized | svn/svn.go:35-42 | every section is titled from SectionTitles and expanded, except Unversioned, which is collapsed; paths are kept |
| Svn.SectionToggled | svn/svn.go:236 | a section toggle flips that section's flag and changes nothing else |
| Svn.SectionToggleTwice | svn/svn.go:236 | toggling a section twice restores the sections |
| Svn.PathToggled | svn/svn.go:248-249 | a path toggle flips that path's flag and changes no other path, no section flag and no title |
| Svn.PathToggleTwice | svn/svn.go:248-249 | toggling a path twice restores the sections |
| Svn.DiffLines | svn/svn.go:200-220 | fails with the separator error exactly when the normalised output lacks "====\n"; otherwise at least one line, none holding a newline; `[""]` when there is no "\n@@" |
| Svn.HunkText | svn/svn.go:208-216 | the suffix of the normalised output that starts just after its first "\n@@", so it begins with "@@" |
| Svn.HunkLines | svn/svn.go:217-220 | the lines start with the "@@" line; joined with "\n" they give back the text if it does not end in a newline, and the text without its final newline if it does |
| Svn.TrailingLine | svn/svn.go:217-220 | the last piece of a split is empty exactly when the text ends in a newline, and dropping it leaves lines that join to the text without that newline |
| Svn.DiffLinesKeepHunk | svn/svn.go:215-220 | the cached lines start with the "@@" line; a hunk text ending in a newline is the lines joined plus that one newline, any other hunk text is the lines joined |
| Svn.DropEmptyLast | svn/svn.go:218-220 | dropping a trailing empty line removes exactly the final "\n" of the joined text |
| Svn.DiffFetched | svn/svn.go:181-224 | on error the cache is unchanged; on success the path is cached and no other key is added; existing entries are never changed |
| Svn.DiffFetchedGuards | svn/svn.go:183-220 | an empty path is an error; a cached path succeeds without change; a failed command returns its error and a missing separator the separator error, both with the cache unchanged; otherwise the new entry is the processed output |
| Svn.CachedDiff | svn/svn.go:226-228 | the cached lines for a known path, and none for an unknown path or a missing cache |
| Svn.FetchThenGet | svn/svn.go:211-221 | after a successful fetch of a new path, reading its diff gives at least one line |
| Svn.RepoStatus.constructor | svn/svn.go:312-314 | the zero value: five untitled, empty, collapsed sections |
| Svn.RepoStatus.Titled | svn/svn.go:316-326 | `NewRepoStatus`: five empty, collapsed sections titled from SectionTitles |
| Svn.RepoStatus.Len | svn/svn.go:328-333 | 0 for a section out of range, else the number of paths in it |
| Svn.RepoStatus.NextNonEmptySection | svn/svn.go:335-342 | if found, the smallest section after `curr` that has a path; if not, (0, false) and every later section is empty |
| Svn.RepoStatus.PrevNonEmptySection | svn/svn.go:344-351 | if found, the largest section before `curr` that has a path; if not, (0, false) and every earlier section is empty |
| Svn.RepoStatus.Append | svn/svn.go:373-375 | the new sections are `Appended` of the old |
| Svn.RepoStatus.Clear | svn/svn.go:377-381 | the new sections are `Cleared` of the old |
| Svn.RealService.constructor | svn/svn.go:28-33 | the zero-value service: zero sections and no diff cache |
| Svn.RealService.Init | svn/svn.go:35-46 | the sections become `Initialized` of the old; the diff cache is created only if there was none |
| Svn.RealService.GetPathStatus | svn/svn.go:137-145 | an out-of-range section or index gives its own error; an in-range pair always succeeds with the path stored there |
| Svn.RealService.ToggleSectionExpand | svn/svn.go:230-238 | an out-of-range section gives this method's own out-of-bounds error and nothing changes; otherwise exactly that section's flag flips |
| Svn.RealService.TogglePathExpand | svn/svn.go:240-251 | an out-of-range section or index gives its error and nothing changes; an in-range pair always returns nil and flips exactly that path's flag |
| Svn.RealService.FetchStatus | svn/svn.go:87-135 | the sections and the returned error are `Refreshed` of the old sections and the fetched document |
| Svn.RealService.RouteTargetEntries | svn/svn.go:104-120 | returns the first invalid-status error, if any; the sections gain the routed entries before it |
| Svn.RealService.AppendListEntries | svn/svn.go:124-130 | returns the first invalid-status error of one change list, if any; Staged gains that list's entries before it, after the ones already added |
| Svn.RealService.AppendStagedEntries | svn/svn.go:122-132 | returns the first invalid-status error among the staged entries, if any; Staged gains the entries before it |
| Svn.RealService.FetchDiff | svn/svn.go:181-224 | the cache and the returned error are `DiffFetched` of the old cache, the path and the command output |
| Svn.RealService.GetDiff | svn/svn.go:226-228 | the `CachedDiff` of the cache |
| History.Pushed | svn/history.go:80-85 | the new message is first and the old ones follow in order; the length grows by one up to the cap of 10 |
| History.PushedBelowCap | svn/history.go:81-84 | below the cap the history is the new message followed by all old ones; nothing is de-duplicated |
| History.PushedAtCap | svn/history.go:81-84 | at the cap only the oldest message is dropped |
| History.PushedAllBounded | svn/history.go:80-85 | after any number of additions the history holds 1 to 10 messages and the newest one first |
| History.CommitHistory.constructor | svn/history.go:16-21 | the history holds the loaded messages |
| History.CommitHistory.GetHistory | svn/history.go:76-78 | returns the messages as stored |
| History.CommitHistory.AddMessage | svn/history.go:80-85 | the messages become `Pushed` of the old ones and the new message |
| Commit.Item.FilterValue | commit/commit.go:50 | the entry filters by its full message |
| Commit.NewItem | commit/commit.go:52-61 | the full message is kept verbatim; the display text has no newline, each newline becomes a space, and it is the flattened text when that fits in 72 bytes, else its first 69 bytes and "..." (72 bytes) |
| Commit.Label | commit/commit.go:82 | the label ends with the display text after at least three more bytes |
| Commit.LabelReadBack | commit/commit.go:82 | the label is the one-based position in decimal, then ". ", then the display text |
| Commit.LabelsDistinct | commit/commit.go:82 | different positions give different labels |
| Commit.Row | commit/commit.go:66-89 | the label after four columns of indent; the "> " marker appears exactly on the selected row |
| Commit.CommitModel.constructor | commit/commit.go:36-43 | the panel over a history, with an empty draft |
| Commit.CommitModel.BuildHistoryItems | commit/commit.go:96-102 | one entry per history message, in history order, each `NewItem` of its message and filtering by it |
| Commit.CommitModel.SaveDraft | commit/commit.go:190-198 | an empty draft leaves the history unchanged; any other draft is added as by `AddMessage` |
| Join.Widest | tui/join.go:14-19 | no line is wider than the result; 0 for no lines |
| Join.WidestAttained | tui/join.go:14-19 | for a non-empty list the result is the width of one of the lines |
| Join.WidestConcat | tui/join.go:111-117 | the widest of two runs of lines together is the larger of their widest |
| Join.GetLines | tui/join.go:11-22 | the lines are the "\n"-split of the text (at least one), and `widest` is their widest width |
| Join.MaxHeight | tui/join.go:48-53 | no block has more lines than the result |
| Join.MaxHeightAttained | tui/join.go:48-53 | for at least one block the result is its line count |
| Join.Padded | tui/join.go:56-79 | a padded block has exactly the target number of lines |
| Join.PaddedLines | tui/join.go:56-79 | padding adds only empty lines |
| Join.PaddedPlacement | tui/join.go:63-78 | Top keeps the block at the top with empty lines after; Bottom puts the empty lines first; in between `share` empty lines go above; every other line is empty |
| Join.PaddedFull | tui/join.go:57-59 | a block that is already as tall as the tallest is left as it is |
| Join.PaddedBlocks | tui/join.go:56-79 | one padded block per input, each `Padded` of its split |
| Join.BlockWidths | tui/join.go:48-53 | one width per input: the widest line of its block |
| Join.CellPlacement | tui/join.go:85-88 | the line comes first, then its fill; with additive widths the cell is exactly the block's width |
| Join.RowStart | tui/join.go:84-89 | a row starts with the first block's line |
| Join.Rows | tui/join.go:81-95 | `h` rows; row `i` is, block by block, line `i` padded to its block's width |
| Join.PaddedFit | tui/join.go:83-88 | after padding, every block has every row, and no line is wider than its block's widest, so padding counts are never negative |
| Join.HorizontalRows | tui/join.go:28-96 | as many rows as the tallest block has lines |
| Join.JoinHorizontal | tui/join.go:28-96 | "" for no blocks; the one block unchanged; otherwise the `HorizontalRows` joined by "\n" |
| Join.SplitBlocks | tui/join.go:47-53 | each block is its text's split, with its widest width; the height is the tallest |
| Join.PadBlocks | tui/join.go:55-79 | each block becomes `Padded` to the tallest height |
| Join.PadBlock | tui/join.go:61-78 | a short block becomes `Padded` by the switch on the position |
| Join.MergeRows | tui/join.go:81-95 | the builder ends with the `Rows` joined by "\n", with none after the last |
| Join.AppendRow | tui/join.go:84-89 | the inner loop appends exactly one `Row` to the builder |
| Join.RowNoNewline | tui/join.go:84-89 | with one-line padding, a merged row holds no newline |
| Join.PaddedNoNewline | tui/join.go:56-79 | the padded blocks hold no newline |
| Join.HorizontalLines | tui/join.go:81-95 | the output splits back into exactly the rows, as many as the tallest block: "\n" separates rows and none trails |
| Join.RowWidth | tui/join.go:84-89 | with additive widths a row is as wide as the block widths added up |
| Join.HorizontalRowsEvenWidth | tui/join.go:84-89 | with additive widths every row of the horizontal join has the same width, the sum of the blocks' widest |
| Join.AllLines | tui/join.go:111-117 | at least one line per block |
| Join.AlignedPlacement | tui/join.go:124-146 | Left puts the line first, Right last; in between, a line needing no fill is written bare |
| Join.AlignedRows | tui/join.go:119-154 | one aligned row per line |
| Join.AlignedRowsAt | tui/join.go:121-146 | row `k` is line `k` with the padding its width leaves, placed by the position |
| Join.VerticalRows | tui/join.go:98-157 | one row per line of all blocks |
| Join.JoinVertical | tui/join.go:98-157 | "" for no blocks; the one block unchanged; otherwise the `VerticalRows` joined by "\n" |
| Join.SplitLines | tui/join.go:111-117 | each block is its text's split; the width is the widest line of all blocks |
| Join.BlockWithinWidest | tui/join.go:111-122 | no line of any block is wider than the widest of all, so `w` is never negative |
| Join.WriteLines | tui/join.go:119-154 | the builder ends with the `VerticalRows` joined by "\n" |
| Join.WriteBlock | tui/join.go:121-153 | one block's aligned lines are appended, each followed by "\n" except the last line of the last block |
| Join.WriteRow | tui/join.go:122-152 | one aligned line is written, with a newline when one is due |
| Join.WriteAligned | tui/join.go:124-146 | the builder gains the line with its padding placed by the position |
| Join.VerticalLines | tui/join.go:119-154 | the output splits back into exactly the rows, one per line of all blocks in order: "\n" separates rows and none trails |
| Join.AlignedNoNewline | tui/join.go:124-146 | with one-line padding an aligned line holds no newline |
| Join.AllLinesNoNewline | tui/join.go:12 | no line of any block holds a newline |
| Join.VerticalRowsEvenWidth | tui/join.go:122-146 | with additive widths every row of the vertical join is as wide as the widest line |
| Join.AlignedWidth | tui/join.go:122-146 | with additive widths an aligned line is exactly `w` wider than the line |
| Join.VerticalAlignment | tui/join.go:124-137 | Left writes each line first, Right last; in between, a line as wide as the widest is written bare |

## Left out

- Running `svn` (`exec.Command`) in `FetchInfo`, `FetchStatus`, `StagePath`, `UnstagePath` and `FetchDiff`. The command's output, or its failure, is an input. `StagePath` and `UnstagePath` return nil for an empty path and otherwise only run a command. `FetchInfo` runs a command and decodes its XML. None of the three is modelled.
- XML decoding of `svn status` and `svn info`. Decoded entries and change lists are given as records (`StatusDoc`). The repository info is not part of the model, so `CurrentInfo`, which returns the stored info, is not modelled either.
- `CurrentStatus` is not modelled; it only returns a pointer to the sections.
- The per-section accessors `Unversioned` … `Issues` are not modelled; each returns one array element.
- History persistence (`NewCommitHistory`, `LoadFromFile`, `SaveToFile`): the configuration directory, JSON and file writes. The history constructor takes the loaded messages, and `SaveDraft` does not write the file.
- Bubbletea `Init`/`Update`/`View`, key handling and every other panel's UI code. `CommitStagedCmd` is also out: it is an asynchronous command calling a method the service interface does not show.
- Commit.Row: the list styles are left out. The item style's and the selected style's left padding become four columns of indent. The "> " marker keeps its place. Colours and the removal of the terminal reset code (commit/commit.go:92) are not modelled.
- Join.JoinHorizontal: requires `st.width("") == 0`. The real `ansi.StringWidth` of an empty string is 0, and the padded empty lines rely on it.
- Middle alignment in `tui/join.go`: `posVal` clamps the position to [0, 1] and `math.Round` rounds a float. Both become the abstract `share`, with `share(n) <= n`. Which share a given float position yields is not modelled.
- `ansi.StringWidth` and lipgloss rendering are abstract (`Join.Style`). Width and rendering lemmas assume `RendersOnOneLine` or `Measures` where they need them.
- Svn.RepoStatus.NextNonEmptySection: requires `curr >= -1`. For a smaller `curr` the Go loop indexes the array with a negative section and panics.
- Svn.RepoStatus.PrevNonEmptySection: requires `curr <= 5`. For a larger `curr` the Go loop indexes past the array and panics.
- Svn.RepoStatus.Append: requires an in-range section. Go would panic on any other index, and every caller passes one of the section constants.
- Svn.RealService.FetchDiff: requires the cache to exist. With a nil cache Go returns normally for an empty path, a failed command or a missing separator, and it panics only when it writes an entry. The model does not cover nil-cache calls at all, because the application calls `Init`, which creates the cache, before any fetch (app/app.go:39).
- Go's integers are unbounded here. Indices and widths never approach the machine limits in this code.
- Strings are byte sequences with no encoding. Display width counts only through the abstract `width`.
- Logger calls are left out.
