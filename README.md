# Staged: a verified model of the diff core

Staged is a desktop git review tool: a Tauri application with a Rust
back end. This project models, in Dafny, the parts of that back end that
decide what the user sees:

- the **hunk-to-alignment assembler** that turns a file's hunks into the
  aligned regions of the side-by-side view, together with the conversion
  of libgit2's 1-indexed hunk headers;
- the value types of the diff (`Span`, `FileContent`, `FileDiff`, `DiffId`);
- the diff payload built for an untracked file and the status chosen for
  a ref-to-ref diff;
- the line splice behind "discard this region";
- the storage of a review comment's selection in the comments table;
- the `git status --porcelain` parser and the libgit2 status bucketing;
- the two file-watcher filters that decide whether a change triggers a
  refresh;
- the reading of an AI tool's `BEFORE:`/`AFTER:` answer;
- the row formatting of the diff inspection tool.

One module per source file:

| file | module | source |
|---|---|---|
| text.dfy | `Text` | Rust's `str::lines`, `join`, `trim`, `starts_with`, `ends_with`, `contains` |
| types.dfy | `DiffTypes` | src-tauri/src/diff/types.rs |
| alignment.dfy | `HunkAlignment` | src-tauri/src/diff/git.rs |
| git_diff.dfy | `GitDiffView` | src-tauri/src/git/diff/mod.rs |
| actions.dfy | `DiscardRegion` | src-tauri/src/diff/actions.rs |
| review.dfy | `ReviewModel` | src-tauri/src/diff/review.rs |
| porcelain.dfy | `Porcelain` | src-tauri/src/git/provider.rs |
| status.dfy | `GitStatusModel` | src-tauri/src/git/status.rs |
| watch_paths.dfy | `WatchPaths` | `Path::strip_prefix` and the path tests shared by both watchers |
| diff_watcher.dfy | `DiffWatcherFilter` | src-tauri/src/diff/watcher.rs |
| status_watcher.dfy | `StatusWatcherFilter` | src-tauri/src/watcher/mod.rs |
| ai_describe.dfy | `AiDescribe` | src-tauri/src/diff/ai_describe.rs |
| inspect_diff.dfy | `InspectDiff` | src-tauri/src/bin/inspect_diff.rs |

The assembler is imperative in the source: one loop over the hunks that
moves two cursors and pushes alignments. It is modelled as a `while` loop,
`HunkAlignment.ComputeAlignmentsFromHunks`. The loop is proved equal to
the function `Assemble`, and the lemmas about `Assemble` and `Fill`
state the properties:

- the `before` spans tile `[0, before_len)` and the `after` spans tile
  `[0, after_len)`, with no gap and no overlap;
- each hunk gives exactly one changed alignment, in hunk order;
- a filler is emitted only for a non-empty gap;
- fillers have equal lengths on both sides only when the gaps do, which
  the assembler itself does not force.

The two bucketing loops (porcelain lines and libgit2 entries) are also
methods, proved against the back-recursive `Gather`. `extract_field` is a
method that returns at the first matching line, proved against
`FirstField`.

## Model

| member | source | states |
|---|---|---|
| DiffTypes.IsWorkingTree | src-tauri/src/diff/types.rs:27-29 | a diff id is a working-tree diff exactly when its after ref is "@" |
| DiffTypes.Len | src-tauri/src/diff/types.rs:160-162 | span length is end minus start when the span runs forwards and 0 otherwise (saturating) |
| DiffTypes.IsEmptyIff | src-tauri/src/diff/types.rs:164-166 | a span is empty exactly when its end does not pass its start |
| DiffTypes.IsBinaryData | src-tauri/src/diff/types.rs:121-125 | content is binary exactly when a NUL byte occurs among its first 8192 bytes |
| DiffTypes.ContentLines | src-tauri/src/diff/types.rs:128-133 | binary content has no lines; text content has its stored lines |
| DiffTypes.FromText | src-tauri/src/diff/types.rs:115-118 | loaded text is text content split into lines |
| DiffTypes.FromTextOfJoined | src-tauri/src/diff/types.rs:115-118 | lines written with '\n' after each one load back as the same lines |
| DiffTypes.PathOf | src-tauri/src/diff/types.rs:52-58 | the display path is the after path, else the before path, else "" |
| DiffTypes.KindOf | src-tauri/src/diff/types.rs:61-68 | added iff only the after side exists, deleted iff only the before side exists, modified iff both or neither exist |
| DiffTypes.IsRename | src-tauri/src/diff/types.rs:71-76 | a rename is exactly two present sides with different paths |
| DiffTypes.IsBinary | src-tauri/src/diff/types.rs:79-93 | a diff is binary exactly when some present side has binary content |
| DiffTypes.PathFollowsKind | src-tauri/src/diff/types.rs:52-76 | an added file shows its after path, a deleted file its before path, a rename is a modification shown under its new path |
| DiffTypes.BinarySideHasNoLines | src-tauri/src/diff/types.rs:128-133 | a binary side contributes no lines to the alignment |
| DiffTypes.TypesExamples | src-tauri/src/diff/types.rs:173-250 | the unit-test vectors: the working-tree id, the added, deleted and modified change kinds, binary detection of [0, 1, 2] and of "hello world", and the rename and same-path cases |
| HunkAlignment.HunkRegions | src-tauri/src/diff/git.rs:409-417 | one changed alignment per hunk, with that hunk's spans, in hunk order |
| HunkAlignment.ZeroIndexed | src-tauri/src/diff/git.rs:310-319 | a start of 0 stays 0; any other start s becomes s - 1 |
| HunkAlignment.NormalizeHunk | src-tauri/src/diff/git.rs:310-326 | both starts go through the 1-to-0 conversion and both line counts are copied |
| HunkAlignment.NormalizeHunkOfNonEmpty | src-tauri/src/diff/git.rs:310-326 | for hunks with non-empty ranges on both sides, the conversion reads git's header back exactly |
| HunkAlignment.NormalizeHunkMisplacesInsertion | src-tauri/src/diff/git.rs:310-326 | a pure insertion after line 2 is read back one line too early, and the assembler then reports the wrong regions |
| HunkAlignment.NormalizeHunkUnifiedRoundTrip | src-tauri/src/diff/git.rs:310-326 | the corrected conversion and git's header printing are inverse to each other, in both directions |
| HunkAlignment.CollectHunks | src-tauri/src/diff/git.rs:307-333 | the hunks of a file are converted one by one and kept in order |
| HunkAlignment.GitHeaders | src-tauri/src/diff/git.rs:307-333 | the headers git reports for a list of hunks, one per hunk, in order |
| HunkAlignment.CollectHunksKeepsUnchangedEqual | src-tauri/src/diff/git.rs:307-333 | reading git's headers back gives the original hunks, so equal gaps give unchanged alignments of equal lengths |
| HunkAlignment.OrderedSuffix | src-tauri/src/diff/git.rs:388-421 | the hunks after any point are still ordered relative to the cursors the loop has reached |
| HunkAlignment.OrderedIsSafe | src-tauri/src/diff/git.rs:396-397 | ordered hunks never make the unsigned gap subtractions underflow |
| HunkAlignment.EmittedStep | src-tauri/src/diff/git.rs:392-421 | one loop iteration appends the gap filler (if any) and the hunk's changed alignment, and moves the cursors to the hunk's ends |
| HunkAlignment.EmittedThenFill | src-tauri/src/diff/git.rs:388-430 | what the loop has emitted so far followed by the rest of the computation is the whole result |
| HunkAlignment.TilesConcat | src-tauri/src/diff/types.rs:136-139 | two tilings that meet make one tiling |
| HunkAlignment.TilesOne | src-tauri/src/diff/types.rs:136-139 | one forward span tiles its own range |
| HunkAlignment.FillCovers | src-tauri/src/diff/git.rs:388-430 | for ordered hunks inside the files, the alignments tile both files from the cursors to the end |
| HunkAlignment.AssembleCovers | src-tauri/src/diff/git.rs:343-433 | for ordered hunks inside the files, the before spans tile [0, before_len) and the after spans tile [0, after_len) |
| HunkAlignment.TilesOrdered | src-tauri/src/diff/types.rs:136-139 | in a tiling, spans come in order: each ends no later than any later one starts |
| HunkAlignment.TilesReach | src-tauri/src/diff/types.rs:136-139 | in a tiling, every line of the range lies in some span |
| HunkAlignment.TilesPartition | src-tauri/src/diff/types.rs:136-139 | every line of a tiled file lies in exactly one alignment |
| HunkAlignment.ChangedOnesConcat | src-tauri/src/diff/git.rs:392-429 | the changed alignments of two stretches are those of each stretch in turn |
| HunkAlignment.FillChanged | src-tauri/src/diff/git.rs:392-429 | the changed alignments are exactly the hunks' regions, one per hunk, in order; fillers are unchanged |
| HunkAlignment.AssembleChanged | src-tauri/src/diff/git.rs:343-433 | when a file is non-empty and there are hunks, the changed alignments are exactly the hunks |
| HunkAlignment.FillShape | src-tauri/src/diff/git.rs:399-429 | fillers are non-empty, never adjacent, and at most one precedes each hunk plus one at the end |
| HunkAlignment.AssembleShape | src-tauri/src/diff/git.rs:343-433 | no empty filler and no two adjacent unchanged alignments in any result |
| HunkAlignment.FillEqualGaps | src-tauri/src/diff/git.rs:399-429 | when every untouched stretch has the same length on both sides, so does every filler |
| HunkAlignment.AssembleEqualGaps | src-tauri/src/diff/git.rs:343-433 | equal untouched stretches give unchanged alignments of equal lengths in the result |
| HunkAlignment.ComputeAlignmentsFromHunks | src-tauri/src/diff/git.rs:343-433 | the loop computes `Assemble`; two empty files give no alignments; with no hunks, an empty side gives one changed alignment and two non-empty sides one unchanged alignment spanning both files |
| HunkAlignment.SingleSubstitution | src-tauri/src/diff/git.rs:521-552 | one line replaced at index 2 of 5 gives unchanged, changed, unchanged |
| HunkAlignment.SizeChangingHunk | src-tauri/src/diff/git.rs:555-581 | two lines replaced by three at the top give the changed region and one unchanged line |
| HunkAlignment.ExhaustiveCoverageScenario | src-tauri/src/diff/git.rs:660-711 | two hunks of different sizes give alignments that cover 9 and 11 lines |
| HunkAlignment.AddedAndDeletedFiles | src-tauri/src/diff/git.rs:630-657 | a new file and a deleted file give one changed alignment covering the present side |
| GitDiffView.IsBinaryContent | src-tauri/src/git/diff/mod.rs:379-381 | content is binary exactly when a NUL byte occurs anywhere in it |
| GitDiffView.BinaryChecksCompared | src-tauri/src/git/diff/mod.rs:379-381 | the whole-content check finds every NUL the 8 KiB probe finds, and the two agree on short content |
| GitDiffView.LateNulSeenOnlyByWholeCheck | src-tauri/src/git/diff/mod.rs:379-381 | a NUL just past the first 8192 bytes is seen by the whole-content check only |
| GitDiffView.NatToString | src-tauri/src/git/diff/mod.rs:269 | the decimal text of a line count: digits only, no leading zero, denoting the number |
| GitDiffView.AddedLines | src-tauri/src/git/diff/mod.rs:233-241 | the i-th after line is "added", numbered i + 1, with the i-th line as content |
| GitDiffView.AsHunkLines | src-tauri/src/git/diff/mod.rs:270-277 | the hunk's lines are the pane's lines with no old number and the pane number as new number |
| GitDiffView.UntrackedFileDiff | src-tauri/src/git/diff/mod.rs:177-289 | an untracked file has status "untracked" and no before side; it is binary exactly when its bytes hold a NUL or do not decode, and then it has no lines, hunks or ranges |
| GitDiffView.UntrackedTextShape | src-tauri/src/git/diff/mod.rs:233-289 | an untracked text file of n lines gives one changed range [0,0)/[0,n) with source lines new 1..n, and one hunk "@@ -0,0 +1,n @@" |
| GitDiffView.UntrackedAgreesWithAssembler | src-tauri/src/git/diff/mod.rs:245-269 | the single range is the alignment the assembler gives a new file of n lines |
| GitDiffView.InvalidUtf8IsBinary | src-tauri/src/git/diff/mod.rs:194-230 | content that does not decode is shown as binary even without a NUL byte |
| GitDiffView.NatToStringExamples | src-tauri/src/git/diff/mod.rs:269 | sample line counts print as their usual decimal text |
| GitDiffView.PresenceStatus | src-tauri/src/git/diff/mod.rs:425-430 | "added" iff only the after side exists, "deleted" iff only the before side exists, "modified" iff both exist |
| GitDiffView.RefDiffGate | src-tauri/src/git/diff/mod.rs:415-468 | a file absent on both sides is the "not found in either" error; otherwise the diff is binary exactly when a present side's content is binary |
| GitDiffView.StatusMatchesChangeKind | src-tauri/src/git/diff/mod.rs:425-430 | the status string names the same change kind as the diff type's classifier |
| DiscardRegion.DiscardRegionContent | src-tauri/src/diff/actions.rs:80-106 | the new lines are the current lines before the region, the base region when it lies inside the base file, then the current lines after the region; the text ends with '\n' iff the current text did |
| DiscardRegion.SpliceLength | src-tauri/src/diff/actions.rs:80-97 | for spans inside both files, the line count changes by the base span's length minus the current span's length |
| DiscardRegion.DiscardRestoresBase | src-tauri/src/diff/actions.rs:80-97 | discarding a region that replaced base lines restores exactly the base lines |
| DiscardRegion.DiscardedContentReadsBack | src-tauri/src/diff/actions.rs:100-106 | for a file that ended with '\n' and a non-empty splice, the written text read back as lines gives the spliced lines |
| DiscardRegion.DiscardedContentReadsBackWithoutNewline | src-tauri/src/diff/actions.rs:100-106 | for a file without a final '\n', the written text reads back as the spliced lines when the last of them is not empty |
| DiscardRegion.EmptySpliceWritesBlankLine | src-tauri/src/diff/actions.rs:80-106 | discarding the only line of a newline-terminated file against an empty base writes "\n", which reads back as one empty line, not as no lines |
| DiscardRegion.OutOfRangeBaseDropsRegion | src-tauri/src/diff/actions.rs:88-97 | a base span past the end of the base file inserts nothing and only cuts out the current region |
| ReviewModel.NewReview | src-tauri/src/diff/review.rs:25-32 | a new review keeps its id and has nothing reviewed, no comments and no edits |
| ReviewModel.EncodeSelection | src-tauri/src/diff/review.rs:265-270 | the type column names the variant, and exactly the columns of that variant are filled |
| ReviewModel.DecodeSelection | src-tauri/src/diff/review.rs:200-209 | "line" and "range" rows rebuild those variants with missing numbers read as 0; any other type reads as a whole-file comment |
| ReviewModel.SelectionRoundTrip | src-tauri/src/diff/review.rs:200-209 | a stored selection reads back as the same selection, for all three variants |
| ReviewModel.DecodeIgnoresUnusedColumns | src-tauri/src/diff/review.rs:200-209 | re-encoding a decoded row keeps exactly the columns its type uses |
| ReviewModel.CommentRoundTrip | src-tauri/src/diff/review.rs:200-209 | a stored comment reads back unchanged |
| ReviewModel.SelectionExamples | src-tauri/src/diff/review.rs:203-208 | missing numbers read as 0 and an unknown type as a whole-file comment |
| Porcelain.CharToStatus | src-tauri/src/git/provider.rs:210-222 | M, A, D, R, C, T, U map to their labels, and the label is "unknown" exactly for every other character |
| Porcelain.FindFirst | src-tauri/src/git/provider.rs:174-179 | the result is the first position where the separator occurs, or none when it never does |
| Porcelain.LastPiece | src-tauri/src/git/provider.rs:174-179 | the last piece of `split`: the text right after an occurrence of the separator, with no separator in it, and the whole path when there is none |
| Porcelain.EntryPath | src-tauri/src/git/provider.rs:172-179 | with a rename arrow, the entry path is the text right after an occurrence of " -> " and holds no " -> " itself; without one, it is the whole text after the status columns |
| Porcelain.StagedOf | src-tauri/src/git/provider.rs:166-196 | a line is staged iff it has at least 3 characters and an index column other than ' ' and '?'; the label comes from that column |
| Porcelain.UnstagedOf | src-tauri/src/git/provider.rs:166-204 | a line is unstaged iff it has at least 3 characters, is not untracked and its worktree column is neither ' ' nor '?' |
| Porcelain.UntrackedOf | src-tauri/src/git/provider.rs:166-188 | a line is untracked iff it has at least 3 characters and index column '?', labelled "untracked" |
| Porcelain.ParsePorcelainStatus | src-tauri/src/git/provider.rs:160-208 | each list holds, in line order, the entries its per-line rule gives |
| Porcelain.ParseMembership | src-tauri/src/git/provider.rs:160-208 | an entry is in a list exactly when some line yields it for that list |
| Porcelain.ShortLinesSkipped | src-tauri/src/git/provider.rs:166-168 | a line shorter than 3 characters changes no list, wherever it stands |
| Porcelain.RenameArrowTarget | src-tauri/src/git/provider.rs:174-179 | a rename line keeps only the new path |
| Porcelain.OverlappingArrowsSplitFromLeft | src-tauri/src/git/provider.rs:174-179 | arrows sharing a space ("from -> -> to") are cut from the left as `split` does, so the path is "-> to", not the text after the arrow that ends last |
| Porcelain.GatherLengthOfSix | src-tauri/src/git/provider.rs:160-208 | the length of a list is the number of lines that yield an entry for it |
| Porcelain.SampleOutput | src-tauri/src/git/provider.rs:229-244 | the unit test's six lines give 3 staged, 3 unstaged and 1 untracked entries, whatever the paths |
| Porcelain.SampleOutputPaths | src-tauri/src/git/provider.rs:229-248 | in the same sample, the staged modification and the added file are staged, the worktree modification unstaged and the `??` file untracked, each under its own path and status |
| GitStatusModel.StatusToString | src-tauri/src/git/status.rs:26-54 | the label is that of the first flag present in the order new, modified, deleted, renamed, typechange, of the index or the worktree flags |
| GitStatusModel.UnknownLabel | src-tauri/src/git/status.rs:26-54 | the label is "unknown" exactly when no relevant flag is set |
| GitStatusModel.StagedEntry | src-tauri/src/git/status.rs:85-96 | an entry is staged iff it carries an index flag, with a missing path as "" |
| GitStatusModel.UnstagedEntry | src-tauri/src/git/status.rs:99-106 | an entry is unstaged iff it carries a worktree change flag; a new file alone does not count |
| GitStatusModel.UntrackedEntry | src-tauri/src/git/status.rs:109-114 | an entry is untracked iff it is new in the worktree |
| GitStatusModel.GatherConcat | src-tauri/src/git/status.rs:76-114 | bucketing two stretches of entries is bucketing each in turn, so order is kept |
| GitStatusModel.GatherMembership | src-tauri/src/git/status.rs:76-114 | a value is in a list exactly when some entry yields it |
| GitStatusModel.BucketStatuses | src-tauri/src/git/status.rs:76-114 | each list holds, in entry order, what its rule gives for each entry |
| GitStatusModel.BucketMembership | src-tauri/src/git/status.rs:76-114 | membership in each list in terms of the flags, and no staged or unstaged entry is labelled "unknown" |
| GitStatusModel.BucketExamples | src-tauri/src/git/status.rs:76-114 | a file changed in index and worktree is listed twice; a new file without a path only as untracked with path "" |
| WatchPaths.StripPrefix | src-tauri/src/diff/watcher.rs:194-197 | the relative path exists exactly when the root is a component-wise prefix, and root plus relative path is the path |
| WatchPaths.AnyStartsWith | src-tauri/src/diff/watcher.rs:226-230 | true exactly when some listed prefix starts the text |
| WatchPaths.AnyEndsWith | src-tauri/src/diff/watcher.rs:236-241 | true exactly when some listed suffix ends the text |
| DiffWatcherFilter.ShouldTriggerRefresh | src-tauri/src/diff/watcher.rs:193-249 | no refresh outside the repository; key git files refresh; other .git paths, build directories, temporary suffixes and .DS_Store do not; everything else refreshes |
| DiffWatcherFilter.BuildDirsAreNotGit | src-tauri/src/diff/watcher.rs:207-230 | no .git path is inside a build directory, so the key-file check is never overridden by the build exclusion |
| DiffWatcherFilter.TestVectors | src-tauri/src/diff/watcher.rs:256-286 | the unit test's nine paths give the expected answers |
| StatusWatcherFilter.ShouldTriggerRefresh | src-tauri/src/watcher/mod.rs:146-208 | no refresh outside the repository; key git files refresh; git noise, other .git paths, build directories, temporary suffixes and .DS_Store do not; everything else refreshes |
| StatusWatcherFilter.GitInternalsAreGit | src-tauri/src/watcher/mod.rs:160-173 | every noisy-internals prefix lies inside .git/ |
| StatusWatcherFilter.SuffixListsDifferByLock | src-tauri/src/diff/watcher.rs:233-241 | the diff filter's suffixes are this filter's suffixes plus ".lock" |
| StatusWatcherFilter.FiltersAgreeExceptFsmonitor | src-tauri/src/watcher/mod.rs:146-208 | the two filters give the same answer for every path except a non-key path containing ".git/fsmonitor", which only this one ignores |
| StatusWatcherFilter.FsmonitorDisagreement | src-tauri/src/watcher/mod.rs:163 | an fsmonitor file under a nested .git directory is ignored here and refreshes the diff view |
| StatusWatcherFilter.TestVectors | src-tauri/src/watcher/mod.rs:216-251 | the unit test's eleven paths give the expected answers |
| AiDescribe.PromptContent | src-tauri/src/diff/ai_describe.rs:135-145 | an empty side is its placeholder; otherwise the lines joined by '\n', which read back as the same lines when every line is one `lines` can produce and the last is not blank |
| AiDescribe.PromptContentBlankLastLine | src-tauri/src/diff/ai_describe.rs:135-145 | a side ending in a blank line is sent with a final '\n', and reading it back drops the blank line |
| AiDescribe.FirstFieldIsEarliest | src-tauri/src/diff/ai_describe.rs:186-194 | there is a value exactly when some trimmed line starts with the field, and it comes from the earliest such line |
| AiDescribe.ExtractField | src-tauri/src/diff/ai_describe.rs:186-194 | the scan returns the field value of the first line carrying it, and none when no line does |
| AiDescribe.ParseDescription | src-tauri/src/diff/ai_describe.rs:174-178 | each description is the extracted field of the trimmed answer, or its fixed fallback text |
| AiDescribe.TwoFieldAnswer | src-tauri/src/diff/ai_describe.rs:186-194 | a two-line answer with fields starting with different letters gives each field its own value |
| AiDescribe.RequestedFormatReadsBack | src-tauri/src/diff/ai_describe.rs:174-194 | any answer "BEFORE: b" newline "AFTER: a" reads back as b and a |
| AiDescribe.ExtractFieldExample | src-tauri/src/diff/ai_describe.rs:201-211 | `extract_field` on the unit test's raw answer gives "old behavior" and "new behavior" |
| AiDescribe.FallbackExactlyWhenMissing | src-tauri/src/diff/ai_describe.rs:174-178 | the fallback is used when no line carries the field; otherwise the value comes from a line that does |
| InspectDiff.Truncate | src-tauri/src/bin/inspect_diff.rs:90-96 | text that fits is kept; longer text becomes exactly max_len characters, a prefix of the text followed by "..." |
| InspectDiff.TruncateIdempotent | src-tauri/src/bin/inspect_diff.rs:90-96 | cutting twice is cutting once, and text changes exactly when it is too long |
| InspectDiff.Marker | src-tauri/src/bin/inspect_diff.rs:34-38 | "-" exactly for removed lines, "+" exactly for added lines, a space for all others |
| InspectDiff.PaneRows | src-tauri/src/bin/inspect_diff.rs:33-46 | one row per pane line, in order, with its number; the marker is "-" for removed, "+" for added and a space for every other line; text that fits in 60 characters is kept, longer text becomes its first 57 characters followed by "..." |
| InspectDiff.RangeRows | src-tauri/src/bin/inspect_diff.rs:67-80 | one row per range, labelled "CHANGE" exactly for changed ranges, with each span's row count |

## Left out

- Integer widths: line numbers, starts, counts and span ends are `u32` or `usize` in the source and `nat` here. The subtractions that can underflow are the assembler's gap subtractions, the `truncate` cut and the row counts `end - start` of the inspection tool; all are guarded by preconditions (`Safe`, `maxLen >= 3`, and `Forward` on every span in `InspectDiff.RangeRows`). A backward span does reach the inspection tool when a hunk lies past the end of the before file: the trailing filler is then built with start past end, and the source panics (debug build) or wraps (release build), which is not modelled. For ordered hunks inside both files every span is forward (`HunkAlignment.AssembleCovers`). Overflow past 2^32 lines is not modelled.
- Bytes and characters: strings are sequences of characters, one per byte. Multi-byte UTF-8, the char-boundary panic of byte slicing in `truncate` and the porcelain parser, and `to_string_lossy` are not modelled.
- `trim` removes ASCII whitespace only; Unicode whitespace is not modelled.
- Paths are sequences of components compared component by component, as `Path::strip_prefix` does. Normalisation of `.`/`..`, symlinks and non-UTF-8 names are not modelled.
- All I/O is left out: libgit2 calls (opening repositories, refs, trees, blobs, the diff callbacks' `RefCell` threading), reading and writing files, SQLite queries, the `git` and AI tool subprocesses, and printing. Their results are parameters of the model.
- The file watchers' debouncers, threads, locks, throttling clocks and event emission, and the whole refresh controller, are concurrency and time.
- `AdaptiveProvider` and `get_status_cli` (atomics, elapsed-time switching, subprocess) are left out; only the porcelain parsing is modelled.
- The prompt text built around the two sides in `describe_hunk`, and tool discovery, are not modelled; only the placeholders, the join and the reading of the answer are.
- The `parse` and `side_by_side` modules are not part of this model.
- The `Connection` argument of `discard_region` is a pair of spans and is modelled as `DiffTypes.Alignment` (its `changed` flag is not read); its own definition in types.rs is not part of this model.
- DiscardRegion.DiscardedContentReadsBack: the read-back holds only for non-empty splices of a newline-terminated file and, in `DiscardedContentReadsBackWithoutNewline`, for splices whose last line is not empty. An empty splice of a newline-terminated file is written as "\n" and reads back as one empty line (`EmptySpliceWritesBlankLine`); a splice ending in an empty line, written without a final '\n', loses that line on reading back.
- `discard_file`, `commit`, `amend`, `stage_file` and `unstage_file` change the repository through libgit2 and are left out. Only the splice inside `discard_region` is modelled.
- `ReviewStore` is modelled only through the selection columns of a comment row and `Review::new`; reviewed-file marks, edits and deletion are plain SQL.
- HunkAlignment.ComputeAlignmentsFromHunks: its `ensures` ties the result to `Assemble` and states the degenerate cases. Coverage, the changed regions and the filler shape are stated about `Assemble` as lemmas. Coverage needs ordered hunks that lie inside both files; the source does not check the second condition and then emits gapped or overlapping spans.
- HunkAlignment.CollectHunks uses the corrected conversion (see Findings). The conversion as written is `HunkAlignment.NormalizeHunk`.
- InspectDiff.PaneRows, InspectDiff.RangeRows: the rows are modelled as values. The `println!` formatting (padding widths) is not modelled.

## Findings

| source | as written | input that shows it | evidently intended | confidence | as-written member | corrected member |
|---|---|---|---|---|---|---|
| src-tauri/src/diff/git.rs:310-326 | every non-zero start s becomes s - 1, including the start of an empty range | one line inserted after line 2 of a 3-line file: git's header is `@@ -2,0 +3,1 @@`, read back as old range [1,1) instead of [2,2), so the assembler pairs before [0,1) with after [0,2) and before [1,3) with after [3,4) as unchanged, where [0,2)/[0,2) and [2,3)/[3,4) are meant | the start of an empty range already names the 0-indexed position of the empty range (unified diff prints the line before it), so it should be kept as is | not executed | HunkAlignment.NormalizeHunkMisplacesInsertion | HunkAlignment.NormalizeHunkUnifiedRoundTrip |
