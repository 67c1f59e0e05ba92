# Verified model of the desktop agent daemon's algorithms

The daemon lets an agent edit files, run commands, drive language servers, debug
adapters and terminals, and archive chats on a desktop. Around its process and
socket plumbing sit a dozen self-contained algorithms and state machines. This
Dafny project models those, with the branches, limits and error cases of the
Rust code, and proves what each of them is for.

- **Batch text editing.** `TextEdits` gives a batch of edits one meaning:
  `Simultaneous` walks the original text once and neither sorts nor splices.
  `EditAlgorithms` proves the daemon's two strategies equal to it (in place from
  the last edit to the first; one copy from the first to the last) and finds the
  exact condition on equal starts. `WorkspaceEdit` (language-server renames, with
  `Positions`, `FileUri`, `Utf8`, `CharEdits`, `TextReplace` for the panics of
  in-place replacement, `RenameOutcome` for what a rename leaves behind and
  `RenameByPath`, with `UriForms`, for renames in paths and texts), `AstEdit`
  (structural rewrites) and `HashlinePatch` (line patches anchored by content
  hashes, with `Lines`, and `PatchByLines` in line numbers) build on it.
- **State machines over whole runs.** `Checkpoint` (undo log with eviction, its
  answers in `CheckpointOutcomes`), `EvalRouter` (console frames of many sessions on
  one pipe, what callers are told in `EvalAnswers`), `ChatStore`, `ChatRows` and
  `ChatConvergence` (last-write-wins snapshots), `DapDemux` (concurrent
  debug-adapter requests, as steps taken in any order), `ShellPump` (capped output
  with a live stream), `PtyBuffer` (terminal output ring).
- **Codecs and loops.** `Framing` and `HeaderLines` (Content-Length frames),
  `Base64` and `Base64Bits`, `Crockford` (pairing codes), `AxDepth` (memoised tree depth).

Code that updates state in place is modelled by classes and loops proved against
specification functions; the properties are proved about those functions. What the
main operations answer is also stated on the fields and characters of their inputs.
`Seqs`, `Arith`, `Strings` and `Wrappers` are shared helpers.

Reading guide: text is a sequence of Unicode scalar values, a byte string a
sequence of numbers below 256 (bit vectors in `Base64`), a file system a map from
path to bytes, a table a map from key to row, a pipe a sequence of frames, and a
clock reading a parameter. The comment at the head of each module names the
source lines it models.

## What the code does not do

Where the code departs from its own comments, or from what a caller might
expect, the model follows the code, and the exact condition or a concrete
counterexample is proved:

- Equal starts in a rename: a non-empty edit listed before an insertion at its
  own start is applied wrongly, or panics when its end then falls inside a
  character, leaving earlier targets written (`EditAlgorithms.TieOrderIsExact`,
  `TextReplace.PanicsIff`, `RenameOutcome.MisorderedTiePanics`).
- Two rename targets naming one file, spelt alike or not: the earlier one is lost;
  so is a target that sits where a later one puts its temporary file (`RenameOutcome.RenameIsExact`,
  `EarlierTargetIsLost`, `TempRemoves`).
- A stale anchor is documented to reject the whole patch; lines that only changed
  places within the anchored range are not noticed
  (`HashlinePatch.AnchorsOnChangedFile`, `SwappedLinesGoThrough`).
- A line patch rewrites every CRLF of the file as a bare newline, and bytes that
  are not UTF-8 as replacement characters (`HashlinePatch.NoOpPatchIsExact`).
- Restoring a checkpoint first captures a rollback, which can evict the entry
  being restored; a file above 32 MiB overwritten by a restore cannot be brought
  back (`Checkpoint.RestoreIsExact`, `RestoreCanEvictItsEntry`, `UndoIsExact`).
  Captures in one millisecond share a blob; which content survives is
  `CaptureClashIsExact` and `LiveContentIsExact`, and a restore writes another one
  only in a collision of digests (`RestoreAtAnyReading`).
- A chat snapshot without messages prunes nothing, and a message id stays with
  the conversation that had it first (`ChatStore.AcceptedIsExact`); so the order of
  delivery can show, exactly as `ChatConvergence.ConvergesIff` says
  (`EmptySnapshotsDiverge`, `SharedIdsDiverge`).
- The 4 MiB output cap cuts by characters although it counts bytes, so
  multi-byte output can overshoot it; a buffer filled exactly gets no marker
  (`ShellPump.CapIsExact`, `FirstOverflowDecides`).
- A debug-adapter request whose write fails leaves its sender registered until a
  response naming it or the reader's exit (`DapDemux.LeaksIff`).
- `read_frame` is documented to return None at a message boundary; it does so
  for an end of input anywhere in a header (`Framing.CleanEndIff`, `CutFrame`).
- LSP 3.17 lets a column past the end of a line default to the line length; here it
  lands behind the line's newline (`Positions.PastTheLine`).
- `ax_depth` is documented to resolve a cyclic parent to 0; only a node that is
  its own parent does, and longer cycles never end (`AxDepth.CyclesNeverEnd`,
  `EndsIffNeverRepeats`).
- A terminal drain returns the open line and keeps it, so the next drain returns
  it again; an escape sequence cut by a chunk boundary is not recognised
  (`PtyBuffer.DrainReturns`, `CutIsCleanIff`); capping a long open line can fall
  inside a character, which panics and poisons the buffer (`PtyBuffer.PoisonedIff`,
  `AccentPoisons`).
- A percent escape may be a plus sign and one hex digit, as the library's number
  parser allows; the model accepts it too.

## Model

| member | source | states |
|---|---|---|
| `TextEdits.StableSortSorts` | apps/desktop-daemon/crates/daemon-core/src/lsp_ops.rs:722 | The stable sort by start orders the edits |
| `TextEdits.StableSortKeepsInserted` | apps/desktop-daemon/crates/daemon-core/src/lsp_ops.rs:722 | It is stable: edits with one start keep their list order, so the texts inserted at a position come out in the same order |
| `TextEdits.SortKeepsMeaning` | apps/desktop-daemon/crates/daemon-core/src/lsp_ops.rs:722 | Sorting a batch does not change what the batch means |
| `TextEdits.OverlapScanIsPairwise` | apps/desktop-daemon/crates/daemon-core/src/lsp_ops.rs:709-719 | Sorting by (start, end) and comparing neighbours accepts exactly the batches whose ranges are pairwise apart, for every batch with ordered ranges |
| `TextEdits.SortedIsChained` | apps/desktop-daemon/crates/daemon-core/src/lsp_ops.rs:722-723 | After the sort by start each range ends before the next begins if and only if the ranges are pairwise apart and equal starts list pure insertions first |
| `TextEdits.SimPermutes` | apps/desktop-daemon/crates/daemon-core/src/fs_ops.rs:585-607 | A batch of disjoint non-empty replacements means the same in every order |
| `EditAlgorithms.NeverPanics` | apps/desktop-daemon/crates/daemon-core/src/lsp_ops.rs:725-727 | In every bottom-up step the range lies inside the part of the text that no earlier step has touched |
| `EditAlgorithms.RangesStayInside` | apps/desktop-daemon/crates/daemon-core/src/lsp_ops.rs:725-727 | Even with misordered ties no bottom-up range reaches past the text |
| `EditAlgorithms.BottomUpIsSimultaneous` | apps/desktop-daemon/crates/daemon-core/src/lsp_ops.rs:724-727 | Replacing ranges in place from the last to the first yields the simultaneous edit, for every text and every chained batch |
| `EditAlgorithms.SortThenBottomUpIsSimultaneous` | apps/desktop-daemon/crates/daemon-core/src/lsp_ops.rs:722-727 | Stable sort, reverse and in-place replacement yield the simultaneous edit of the batch as listed |
| `EditAlgorithms.TieOrderIsExact` | apps/desktop-daemon/crates/daemon-core/src/lsp_ops.rs:722-727 | Accepted ranges are applied as one simultaneous edit whatever their texts if and only if equal starts list insertions first; otherwise a concrete batch of the same ranges goes wrong |
| `EditAlgorithms.TopDownIsSimultaneous` | apps/desktop-daemon/crates/daemon-core/src/ast_ops.rs:246-259 | The copying loop succeeds exactly on ordered, in-bounds, chained batches and then yields the simultaneous edit |
| `EditAlgorithms.SimultaneousLength` | apps/desktop-daemon/crates/daemon-core/src/fs_ops.rs:585-607 | Conservation of length: what was there, minus removed, plus added |
| `EditAlgorithms.SimOfOne` | apps/desktop-daemon/crates/daemon-core/src/lsp_ops.rs:725-727 | One edit alone: the text in the place of its range, the rest as it was |
| `Positions.Utf16ToByteOffset` | apps/desktop-daemon/crates/daemon-core/src/lsp_ops.rs:218-230 | The counting loop returns the byte length of the characters before the UTF-16 column |
| `Positions.CharsBeforeIsLeast` | apps/desktop-daemon/crates/daemon-core/src/lsp_ops.rs:218-230 | Those characters are the least prefix whose UTF-16 length reaches the column, or the whole line |
| `Positions.CharsBeforeExact` | apps/desktop-daemon/crates/daemon-core/src/lsp_ops.rs:218-230 | A column that is the UTF-16 length of a prefix denotes exactly that prefix |
| `Positions.LineColToByte` | apps/desktop-daemon/crates/daemon-core/src/lsp_ops.rs:750-759 | The line loop returns the byte offset that the position denotes |
| `Positions.ByteAtMonotone` | apps/desktop-daemon/crates/daemon-core/src/lsp_ops.rs:749-759 | Offsets are monotone in (line, character) order and never past the source |
| `Positions.ByteAtIsBoundary` | apps/desktop-daemon/crates/daemon-core/src/lsp_ops.rs:749-759 | Every offset is a character boundary of the UTF-8 source |
| `Positions.ByteAtExact` | apps/desktop-daemon/crates/daemon-core/src/lsp_ops.rs:749-759 | Every character's own line and UTF-16 column map back to its byte offset |
| `Positions.LineOfCounts` | apps/desktop-daemon/crates/daemon-core/src/lsp_ops.rs:749-759 | A character's line is the number of newlines before it |
| `Positions.ColumnFromLineStart` | apps/desktop-daemon/crates/daemon-core/src/lsp_ops.rs:218-230 | A character's column is the UTF-16 length of its line before it |
| `Utf8.Utf16LenCounts` | apps/desktop-daemon/crates/daemon-core/src/lsp_ops.rs:216-230 | The UTF-16 length is one a character and one more for each outside the basic plane |
| `Utf8.EncodedBits` | apps/desktop-daemon/crates/daemon-core/src/lsp_ops.rs:165-167 | The bytes of a character carry the bits of its code point behind the marks of UTF-8 (RFC 3629), no more bytes than it needs |
| `Utf8.BoundaryIff` | apps/desktop-daemon/crates/daemon-core/src/lsp_ops.rs:725-727 | A byte offset is a character boundary if and only if it is the length of some prefix of the text |
| `Positions.PastTheLine` | apps/desktop-daemon/crates/daemon-core/src/lsp_ops.rs:218-230 | A column lands behind the newline of its line if and only if it lies past the text of the line |
| `Utf8.DecodeEncode` | apps/desktop-daemon/crates/daemon-core/src/lsp_ops.rs:165-167 | Strict UTF-8 decoding inverts encoding on every text |
| `Utf8.EncodeDecode` | apps/desktop-daemon/crates/daemon-core/src/lsp_ops.rs:682-684 | Encoding inverts strict decoding: a file read as text is the encoding of that text |
| `CharEdits.CoveredOnBytes` | apps/desktop-daemon/crates/daemon-core/src/lsp_ops.rs:725-727 | With ranges on character boundaries a character is replaced as a whole or not at all |
| `CharEdits.EncodingCommutes` | apps/desktop-daemon/crates/daemon-core/src/lsp_ops.rs:677-727 | Editing the UTF-8 bytes at byte offsets is editing the characters and encoding the result |
| `WorkspaceEdit.GatherRanges` | apps/desktop-daemon/crates/daemon-core/src/lsp_ops.rs:685-705 | All ranges are gathered exactly when every one is ordered and inside the source |
| `WorkspaceEdit.FindsOverlap` | apps/desktop-daemon/crates/daemon-core/src/lsp_ops.rs:709-719 | Reports an overlap exactly when two ranges are not apart |
| `WorkspaceEdit.ApplyRanges` | apps/desktop-daemon/crates/daemon-core/src/lsp_ops.rs:722-727 | The rewriting loop computes sort-then-bottom-up replacement on the bytes of the source, or stops where `replace_range` panics |
| `WorkspaceEdit.Workspace.Gather` | apps/desktop-daemon/crates/daemon-core/src/lsp_ops.rs:677-707 | Succeeds exactly when every target is applicable; otherwise the first inapplicable target gives the reason; which path and file that means is `RenameByPath.TargetIsGatedOnItsPath` |
| `WorkspaceEdit.Workspace.Apply` | apps/desktop-daemon/crates/daemon-core/src/lsp_ops.rs:670-747 | Refused exactly when empty, inapplicable or overlapping, with the reason and no file changed; otherwise targets are written one by one, each from the source read before any write, up to the first that panics, as `Renamed` says, which `RenameByPath` states in paths and texts |
| `TextReplace.StaysBoundary` | apps/desktop-daemon/crates/daemon-core/src/lsp_ops.rs:725-727 | A character boundary that every edit passes is still one when the edits are done |
| `TextReplace.PanicsIff` | apps/desktop-daemon/crates/daemon-core/src/lsp_ops.rs:722-727 | Replacing a sorted batch of disjoint whole-character ranges panics if and only if some replacement ends inside a character of the texts inserted behind it at its own start and the source after them |
| `TextReplace.OrderedTiesNeverPanic` | apps/desktop-daemon/crates/daemon-core/src/lsp_ops.rs:722-727 | With insertions listed first no step panics and the text built is the simultaneous edit |
| `RenameOutcome.RenamePanicsIff` | apps/desktop-daemon/crates/daemon-core/src/lsp_ops.rs:721-745 | A rename stops with exactly the targets before the k-th written if and only if the k-th is the first whose sorted ranges cut a character |
| `RenameOutcome.OrderedRenameNeverPanics` | apps/desktop-daemon/crates/daemon-core/src/lsp_ops.rs:721-747 | With insertions listed first in every target a rename runs to its end |
| `RenameOutcome.MisorderedTiePanics` | apps/desktop-daemon/crates/daemon-core/src/lsp_ops.rs:721-745 | Input: a target with a misordered tie around an accented letter stops the rename with the first target already written |
| `RenameOutcome.OrderedRangesAreInBounds` | apps/desktop-daemon/crates/daemon-core/src/lsp_ops.rs:698-702 | The range guard never refuses an ordered LSP range, whatever the text |
| `RenameOutcome.OthersUntouched` | apps/desktop-daemon/crates/daemon-core/src/lsp_ops.rs:721-745 | Files that no target names, and where none puts its temporary file, keep their bytes |
| `RenameOutcome.TempBeside` | apps/desktop-daemon/crates/daemon-core/src/lsp_ops.rs:728 | The temporary file of dir/stem.ext is dir/stem.synthhires-tmp |
| `RenameOutcome.TempOfPlain` | apps/desktop-daemon/crates/daemon-core/src/lsp_ops.rs:728 | A name with no dot behind its first character keeps all of itself |
| `RenameOutcome.TempRemoves` | apps/desktop-daemon/crates/daemon-core/src/lsp_ops.rs:728-737 | A file where a later target puts its temporary file is overwritten and renamed away |
| `RenameOutcome.LastPlanWins` | apps/desktop-daemon/crates/daemon-core/src/lsp_ops.rs:677-745 | The last target that touches a file decides its bytes |
| `RenameOutcome.EarlierTargetIsLost` | apps/desktop-daemon/crates/daemon-core/src/lsp_ops.rs:677-745 | Input: of two targets of one file, spelt alike or not, the insertion of the first is lost |
| `RenameOutcome.InsertionsFirstIsExact` | apps/desktop-daemon/crates/daemon-core/src/lsp_ops.rs:722-727 | The tie condition, for bytes: exact for every choice of replacement texts |
| `RenameOutcome.EditedText` | apps/desktop-daemon/crates/daemon-core/src/lsp_ops.rs:721-727 | The simultaneous edit of the bytes is valid UTF-8 and, as a text, the simultaneous edit of the characters of the source |
| `RenameOutcome.AcceptedTargetsLand` | apps/desktop-daemon/crates/daemon-core/src/lsp_ops.rs:670-747 | End to end: an accepted edit with insertions first runs to its end, and every target no later target touches decodes to the simultaneous edit of the text it held before; by path in `RenameByPath.RenameWritesTheText` |
| `RenameOutcome.RenameIsExact` | apps/desktop-daemon/crates/daemon-core/src/lsp_ops.rs:670-747 | For every choice of replacement texts the rename finishes with every target holding its own simultaneous edit, if and only if every target lists insertions first, targets sharing a file, however spelt, edit nothing, and no target sits where a later one puts its temporary file unless it comes again |
| `RenameOutcome.AcceptedRenameIsExact` | apps/desktop-daemon/crates/daemon-core/src/lsp_ops.rs:670-747 | The same for the targets of any accepted edit |
| `RenameOutcome.RangesCutCleanly` | apps/desktop-daemon/crates/daemon-core/src/lsp_ops.rs:696-705 | The gathered ranges and texts start and end on character boundaries |
| `RenameByPath.TargetIsGatedOnItsPath` | apps/desktop-daemon/crates/daemon-core/src/lsp_ops.rs:677-707 | The target with the URI of a path is gated on that very path and read from the file it names: denied, unreadable or misordered in that order, applicable exactly otherwise |
| `RenameByPath.ForeignSchemeIsUnsupported` | apps/desktop-daemon/crates/daemon-core/src/lsp_ops.rs:197-198 | A URI of another scheme is refused as such |
| `RenameByPath.RenameWritesTheText` | apps/desktop-daemon/crates/daemon-core/src/lsp_ops.rs:667-759 | End to end in texts: for any files named by the URIs of their paths (absolute, single slashes), on any host that reads UTF-8 as its text, with edits by line and UTF-16 column that are apart and list insertions first, the rename is accepted and finishes and each file holds the simultaneous edit of its text, character by character |
| `RenameByPath.OneEditRenames` | apps/desktop-daemon/crates/daemon-core/src/lsp_ops.rs:667-759 | One edit of one file: the characters between two positions become the new text, with one file and one edit counted, and every other file stays |
| `AstEdit.CopyLoop` | apps/desktop-daemon/crates/daemon-core/src/ast_ops.rs:246-259 | The loop over sorted matches is the top-down copy |
| `AstEdit.Rebuild` | apps/desktop-daemon/crates/daemon-core/src/ast_ops.rs:244-259 | Rebuilds exactly the batches in bounds, disjoint and with insertions first, into the simultaneous edit |
| `AstEdit.SourceFile.Rewrite` | apps/desktop-daemon/crates/daemon-core/src/ast_ops.rs:228-274 | No match and a refused batch leave the file alone; otherwise it holds the simultaneous edit |
| `AstEdit.OneMatch` | apps/desktop-daemon/crates/daemon-core/src/ast_ops.rs:228-274 | One match goes through exactly when it lies inside the source; its text then stands in the place of what it matched |
| `AstEdit.MatchesGoThrough` | apps/desktop-daemon/crates/daemon-core/src/ast_ops.rs:244-259 | Any matches go through exactly when each lies inside the source, no two overlap, and of two at one position the first listed deletes nothing |
| `AstEdit.CopyAgreesWithReplace` | apps/desktop-daemon/crates/daemon-core/src/ast_ops.rs:244-259 | Top-down copying and bottom-up replacement build the same text, of the conserved length |
| `FileUri.PathToUri` | apps/desktop-daemon/crates/daemon-core/src/lsp_ops.rs:172-194 | The encoding loop computes the escaped, slash-joined components |
| `FileUri.UriToBytes` | apps/desktop-daemon/crates/daemon-core/src/lsp_ops.rs:197-214 | The decoding loop computes the percent-decoded bytes, or nothing for a foreign scheme or a malformed escape |
| `FileUri.UriRoundTrip` | apps/desktop-daemon/crates/daemon-core/src/lsp_ops.rs:172-214 | Decoding an encoded path yields the UTF-8 bytes of the path with backslashes turned into slashes and empty components dropped, for every path |
| `FileUri.UriRoundTripIsExact` | apps/desktop-daemon/crates/daemon-core/src/lsp_ops.rs:172-214 | The path itself comes back if and only if it is absolute, has no backslash and no empty inner component (section 2.1 of RFC 3986) |
| `UriForms.UriIsWritten` | apps/desktop-daemon/crates/daemon-core/src/lsp_ops.rs:172-194 | The URI of any path is the prefix and the path, its separators normalised, character by character: letters, digits and nine marks as they are, every other character as percent signs and upper-case hexadecimal pairs of its UTF-8 bytes |
| `UriForms.DecoderReads` | apps/desktop-daemon/crates/daemon-core/src/lsp_ops.rs:199-213 | Byte by byte, for any URI: a percent sign and two hexadecimal digits of either case (or a plus sign and one) are a byte, any other pair refuses the URI, a percent sign with less than two bytes behind it stands for itself |
| `UriForms.AuthorityIsDropped` | apps/desktop-daemon/crates/daemon-core/src/lsp_ops.rs:197-200 | What stands before the first slash is dropped |
| `Lines.RenderLines` | apps/desktop-daemon/crates/daemon-core/src/fs_ops.rs:553-610 | Splitting into lines and joining them back drops exactly the carriage returns in front of newlines |
| `Lines.LinesOfTerminated` | apps/desktop-daemon/crates/daemon-core/src/fs_ops.rs:513-526 | A text of terminated lines splits back into those lines |
| `HashlinePatch.PlanEdits` | apps/desktop-daemon/crates/daemon-core/src/fs_ops.rs:556-582 | A plan exists exactly when every range is in bounds with a matching anchor; otherwise the first misfit gives the reason; in line numbers in `PatchByLines.BatchGoesThrough` |
| `HashlinePatch.SpliceLoop` | apps/desktop-daemon/crates/daemon-core/src/fs_ops.rs:584-607 | The splice loop goes through exactly when each range ends before the one spliced before it, and replaces bottom-up |
| `HashlinePatch.SpliceAll` | apps/desktop-daemon/crates/daemon-core/src/fs_ops.rs:584-607 | Sorting by descending start and splicing accepts exactly disjoint plans and yields the simultaneous replacement of lines |
| `HashlinePatch.TextFile.Patch` | apps/desktop-daemon/crates/daemon-core/src/fs_ops.rs:546-621 | A batch reaches the write exactly when it is non-empty, in bounds, freshly anchored and disjoint; the written bytes are the simultaneous replacement of lines; a rejection changes nothing and says why; for files that are UTF-8 and files that are not; in line numbers in `PatchByLines` |
| `HashlinePatch.PatchPermutes` | apps/desktop-daemon/crates/daemon-core/src/fs_ops.rs:584-607 | Every permutation of an accepted batch is accepted and writes the same lines; the line count is in minus removed plus added |
| `PatchByLines.OneEditGoesThrough` | apps/desktop-daemon/crates/daemon-core/src/fs_ops.rs:556-582 | On the numbers of one edit (a start of 0 is 1, no end or an earlier one is the start): accepted exactly when the last line exists and every non-blank token is the hash of a line from first to last; otherwise past the end of the file before stale |
| `PatchByLines.OneEditWrites` | apps/desktop-daemon/crates/daemon-core/src/fs_ops.rs:556-621 | It writes the lines before the first, the replacement and the lines behind the last, with a final newline exactly if there was one, and reports first line, last line and lines added |
| `PatchByLines.NoEndMeansOneLine` | apps/desktop-daemon/crates/daemon-core/src/fs_ops.rs:558-559 | Without an end only the start line is replaced |
| `PatchByLines.BatchGoesThrough` | apps/desktop-daemon/crates/daemon-core/src/fs_ops.rs:556-598 | A batch is accepted exactly when it has an edit, every edit names existing lines with its hashes among theirs, and no line is named twice |
| `PatchByLines.BatchWrites` | apps/desktop-daemon/crates/daemon-core/src/fs_ops.rs:584-616 | It writes the file read top to bottom with each replacement in the place of the lines its edit names, in whatever order the edits are listed |
| `PatchByLines.ReportIsComplete` | apps/desktop-daemon/crates/daemon-core/src/fs_ops.rs:586-608 | The report tells of every edit its first and last line and the lines added, ascending |
| `HashlinePatch.Annotate` | apps/desktop-daemon/crates/daemon-core/src/fs_ops.rs:513-526 | The annotated read is number, hash and content of every line |
| `HashlinePatch.AnnotatedHash` | apps/desktop-daemon/crates/daemon-core/src/fs_ops.rs:445-526 | Line k of the annotated text carries the hash of line k of the file |
| `PatchByLines.AnnotatedFormat` | apps/desktop-daemon/crates/daemon-core/src/fs_ops.rs:429-526 | An annotated line is its number from 1, its hash and its content with the two separators between them; a final carriage return is lost |
| `HashlinePatch.CopiedAnchorsAreFresh` | apps/desktop-daemon/crates/daemon-core/src/fs_ops.rs:445-503 | Hashes copied from a full annotated read are never stale on the unchanged file, for every range |
| `HashlinePatch.NoOpPatchIsExact` | apps/desktop-daemon/crates/daemon-core/src/fs_ops.rs:553-610 | Replacing a range by its own lines rewrites the identical bytes if and only if the file is UTF-8 without CRLF; in a UTF-8 file every CRLF becomes a bare newline |
| `HashlinePatch.AnchorsOnChangedFile` | apps/desktop-daemon/crates/daemon-core/src/fs_ops.rs:421-503 | Anchors copied for some lines go through on a changed file if and only if the file still has those line numbers and each copied hash occurs somewhere in the range |
| `HashlinePatch.OneLineAnchor` | apps/desktop-daemon/crates/daemon-core/src/fs_ops.rs:421-503 | A single anchored line goes through exactly if its hash is unchanged |
| `HashlinePatch.ReorderedLinesGoThrough` | apps/desktop-daemon/crates/daemon-core/src/fs_ops.rs:421-503 | Lines that changed places within the range since the read are patched all the same |
| `HashlinePatch.SwappedLinesGoThrough` | apps/desktop-daemon/crates/daemon-core/src/fs_ops.rs:421-503 | Input: two swapped lines |
| `Checkpoint.CheckpointStore.EnforceLimits` | apps/desktop-daemon/crates/daemon-core/src/checkpoint.rs:115-132 | The loop drops the oldest entry and its blob until both budgets are met, and terminates |
| `Checkpoint.CheckpointStore.Capture` | apps/desktop-daemon/crates/daemon-core/src/checkpoint.rs:140-182 | Records what the path holds, appends the entry, enforces the budgets |
| `Checkpoint.CheckpointStore.Restore` | apps/desktop-daemon/crates/daemon-core/src/checkpoint.rs:194-241 | Captures a rollback, then writes the pre-image back, with every failure of the original |
| `Checkpoint.DroppedIsLeast` | apps/desktop-daemon/crates/daemon-core/src/checkpoint.rs:115-132 | The number of entries dropped is the least that leaves a run within budget, or all but the newest |
| `Checkpoint.SurvivesIff` | apps/desktop-daemon/crates/daemon-core/src/checkpoint.rs:115-132 | An entry survives if and only if the run from it to the newest fits, or it is the newest |
| `Checkpoint.EvictKeepsRun` | apps/desktop-daemon/crates/daemon-core/src/checkpoint.rs:115-132 | With increasing timestamps eviction keeps exactly that run, and exactly its blobs |
| `Checkpoint.CaptureKeepsSound` | apps/desktop-daemon/crates/daemon-core/src/checkpoint.rs:140-182 | After a capture every stored entry still tells the truth about its path at capture, and the blobs are exactly those of stored entries |
| `Checkpoint.IndexIsLongestRun` | apps/desktop-daemon/crates/daemon-core/src/checkpoint.rs:115-182 | Over a whole run of captures, mutations and restores the index is the longest newest-first run within 200 entries and 512 MiB of everything ever recorded, or the newest entry alone |
| `Checkpoint.RunKeepsSound` | apps/desktop-daemon/crates/daemon-core/src/checkpoint.rs:115-241 | In every run with increasing timestamps, entries, history and blobs stay consistent |
| `Checkpoint.RestoreIsExact` | apps/desktop-daemon/crates/daemon-core/src/checkpoint.rs:194-241 | Restoring a live entry goes through if and only if it recorded an absence, or its content was stored and the run from it to the rollback fits; then its path holds what it held at capture and no other path changes; a failure changes no file |
| `Checkpoint.UndoIsExact` | apps/desktop-daemon/crates/daemon-core/src/checkpoint.rs:205-241 | After a restore, restoring the returned rollback succeeds if and only if the overwritten file was absent or at most 32 MiB, and then brings every file back |
| `Checkpoint.RestoreCanEvictItsEntry` | apps/desktop-daemon/crates/daemon-core/src/checkpoint.rs:205-215 | Input: the rollback of a huge file evicts the very pre-image being restored |
| `Checkpoint.CaptureClashIsExact` | apps/desktop-daemon/crates/daemon-core/src/checkpoint.rs:140-182 | A capture at any reading: a stored entry that survives it keeps its content if and only if the readings differ, or the capture stores nothing, or its path holds that same content |
| `Checkpoint.AnyRunFollows` | apps/desktop-daemon/crates/daemon-core/src/checkpoint.rs:115-241 | In every run at any readings, equal and decreasing ones included: a live entry is one that was recorded, its blob is what the last capture at its reading stored, and the index is within its budgets or of one reading alone |
| `Checkpoint.LiveContentIsExact` | apps/desktop-daemon/crates/daemon-core/src/checkpoint.rs:50-241 | At any readings a live entry keeps the content it recorded if and only if the last capture that stored anything at its reading stored that content |
| `Checkpoint.DistinctReadingsNeverClash` | apps/desktop-daemon/crates/daemon-core/src/checkpoint.rs:50-182 | Distinct readings suffice, even when the clock steps back |
| `Checkpoint.EvictedExactly` | apps/desktop-daemon/crates/daemon-core/src/checkpoint.rs:115-132 | At any readings, in any order: an entry survives eviction if and only if it is of the fresh reading, or the entries not older than it together with the fresh ones fit the budgets; a blob goes with its entries |
| `Checkpoint.RestoreAtAnyReading` | apps/desktop-daemon/crates/daemon-core/src/checkpoint.rs:194-241 | Whatever the clock did, restoring a stored entry goes through if and only if it survives the rollback capture and what was last stored at its reading, the rollback included, has the digest it recorded; it then writes just that and touches no other path |
| `Checkpoint.UnclashedRestores` | apps/desktop-daemon/crates/daemon-core/src/checkpoint.rs:194-241 | So the recorded content comes back when nothing else was last stored at its reading |
| `Checkpoint.SameTimestampLosesContent` | apps/desktop-daemon/crates/daemon-core/src/checkpoint.rs:50-52 | Input: two captures in one millisecond share a blob and the older content is lost |
| `CheckpointOutcomes.CaptureRecords` | apps/desktop-daemon/crates/daemon-core/src/checkpoint.rs:115-182 | On the fields: a capture appends action, capability, path, reading, presence, size, and the digest of a file up to 32 MiB, whose bytes it keeps; afterwards the index is within 200 entries and 512 MiB or of one reading alone |
| `CheckpointOutcomes.UnknownReading` | apps/desktop-daemon/crates/daemon-core/src/checkpoint.rs:195-205 | A timestamp that is not in the index is refused and changes nothing |
| `CheckpointOutcomes.RestoreAnswers` | apps/desktop-daemon/crates/daemon-core/src/checkpoint.rs:194-241 | Any other: the rollback is captured, and then the answer is decided by the fields of the entry and of its blob: not stored, unreadable, corrupt, content put back, or file made absent; a failure changes no file |
| `EvalRouter.EvalEngine.Call` | apps/desktop-daemon/crates/daemon-core/src/eval_session.rs:115-287 | One call, as `Exec` says: reap and destroy the expired, seed from the queue, read frames until the own reply, route the others, return the value or error; running out of frames kills the runtime and every session; on the fields of the frames in `EvalAnswers` |
| `EvalRouter.LoopDelivers` | apps/desktop-daemon/crates/daemon-core/src/eval_session.rs:187-286 | The loop stops at its own reply, and the caller has absorbed exactly the lines before it that are its own, in order; what it answers is `EvalAnswers.CallAnswers` |
| `EvalRouter.LoopQueues` | apps/desktop-daemon/crates/daemon-core/src/eval_session.rs:226-252 | Every other session's queue has absorbed exactly the lines tagged with it while it is live, in order |
| `EvalRouter.CallRefines` | apps/desktop-daemon/crates/daemon-core/src/eval_session.rs:115-287 | The engine refines one mailbox per session: a call is handed exactly its own outstanding lines, and queues exist only for live sessions |
| `EvalRouter.CallConserves` | apps/desktop-daemon/crates/daemon-core/src/eval_session.rs:115-287 | What is in a box plus what arrives equals what is discarded, handed over or still there |
| `EvalRouter.RunConserves` | apps/desktop-daemon/crates/daemon-core/src/eval_session.rs:115-287 | Over every run, with kills and reaping: every line given to a session leaves its box exactly once and in order, or is still in it |
| `EvalRouter.UncappedIsPlain` | apps/desktop-daemon/crates/daemon-core/src/eval_session.rs:318-327 | While each line finds the buffer below its cap, the buffer is the plain text of its lines |
| `EvalRouter.CappedIsPrefix` | apps/desktop-daemon/crates/daemon-core/src/eval_session.rs:318-327 | Otherwise it is the plain text of the lines that found room, closed by one ellipsis |
| `EvalRouter.ConsoleIsConserved` | apps/desktop-daemon/crates/daemon-core/src/eval_session.rs:115-327 | With nothing discarded and no single buffer at its cap, however much the run prints in all: what the calls returned to a session followed by what is queued for it is the text of every console line read for it, in order |
| `EvalAnswers.CallAnswers` | apps/desktop-daemon/crates/daemon-core/src/eval_session.rs:147-283 | On the fields of the first reply with the call's request id: `done` returns its value, `error` its message or "unknown eval error", for the session asked for if it is not blank and a new one otherwise; frames behind the reply stay |
| `EvalAnswers.SessionsAfterAnswer` | apps/desktop-daemon/crates/daemon-core/src/eval_session.rs:130-275 | The own session is dated by the end of the call and its queue taken; the others are kept exactly if used within ten minutes |
| `EvalAnswers.UnansweredIsKilled` | apps/desktop-daemon/crates/daemon-core/src/eval_session.rs:187-222 | Without an own reply the runtime and every session are gone |
| `EvalAnswers.UnsentReadsNothing` | apps/desktop-daemon/crates/daemon-core/src/eval_session.rs:130-163 | A request that cannot be written reads nothing and only reaps |
| `EvalAnswers.CallReturnsItsConsole` | apps/desktop-daemon/crates/daemon-core/src/eval_session.rs:165-252 | Below 200,000 bytes a call returns on each stream what was queued for its session, then the lines before its reply tagged with the session, or untagged with the request id |
| `ChatStore.ChatStore.UpsertConversation` | apps/desktop-daemon/crates/daemon-core/src/chat_store.rs:158-263 | A stale snapshot changes nothing; otherwise the row is replaced, the messages upserted one by one and pruned; a failing statement, whichever it is, rolls everything back; the rows field by field are in `ChatRows` |
| `ChatStore.ChatStore.DeleteConversation` | apps/desktop-daemon/crates/daemon-core/src/chat_store.rs:407-413 | Deleting cascades to exactly the messages of the conversation |
| `ChatStore.PutMessagesAt` | apps/desktop-daemon/crates/daemon-core/src/chat_store.rs:211-238 | An upserted row is the one the list alone would write, under the conversation that had it first; its fields are `ChatRows.MessageIsStored` |
| `ChatStore.AcceptedIsExact` | apps/desktop-daemon/crates/daemon-core/src/chat_store.rs:211-257 | An accepted snapshot makes its conversation hold exactly its messages if and only if none of its ids sits under another conversation and it has messages or there was nothing to prune; field by field in `ChatRows` |
| `ChatStore.OthersUntouched` | apps/desktop-daemon/crates/daemon-core/src/chat_store.rs:211-257 | Without foreign ids every other conversation keeps its row and messages |
| `ChatConvergence.PlayingLands` | apps/desktop-daemon/crates/daemon-core/src/chat_store.rs:158-263 | After any deliveries of dated snapshots each newest one delivered has its row in place and, if it has messages, exactly those |
| `ChatConvergence.DeliveriesConverge` | apps/desktop-daemon/crates/daemon-core/src/chat_store.rs:158-263 | Agreeing snapshots in any order, with any duplication, at any local time, end in the same store |
| `ChatConvergence.ConvergesIff` | apps/desktop-daemon/crates/daemon-core/src/chat_store.rs:158-263 | All orders and duplications of some dated snapshots end in the same store if and only if, conversation by conversation, the newest snapshots give one row and one set of messages, one of them has messages if any snapshot has, and none of their message ids is listed for another conversation |
| `ChatConvergence.SharedIdsDiverge` | apps/desktop-daemon/crates/daemon-core/src/chat_store.rs:211-238 | Input: one message id in two conversations stays with the one that came first |
| `ChatConvergence.UndatedIsDatedByClock` | apps/desktop-daemon/crates/daemon-core/src/chat_store.rs:162-167 | A snapshot without a timestamp lands as one dated by the local clock |
| `ChatConvergence.EmptySnapshotsDiverge` | apps/desktop-daemon/crates/daemon-core/src/chat_store.rs:243-257 | Input: a newer snapshot without messages prunes nothing, so the order shows |
| `ChatStore.UpsertKeepsReferential` | apps/desktop-daemon/crates/daemon-core/src/chat_store.rs:125-141 | Every stored message keeps belonging to a stored conversation |
| `ChatRows.OlderIsIgnored` | apps/desktop-daemon/crates/daemon-core/src/chat_store.rs:169-182 | A snapshot older than the stored row changes nothing |
| `ChatRows.ConversationIsStored` | apps/desktop-daemon/crates/daemon-core/src/chat_store.rs:162-209 | Any other puts its title, workspace, model, provider, pin and time into the row, absent ones by their defaults, and leaves the other rows |
| `ChatRows.MessageIsStored` | apps/desktop-daemon/crates/daemon-core/src/chat_store.rs:211-238 | The last message with each id is stored with its own role, its own content or the first 200,000 characters of it, and its own time, under the conversation that had the id first |
| `ChatRows.UnlistedMessage` | apps/desktop-daemon/crates/daemon-core/src/chat_store.rs:242-257 | A message the snapshot does not carry stays, unless it is of its conversation and the snapshot carries any |
| `ShellPump.StreamPump.Push` | apps/desktop-daemon/crates/daemon-core/src/shell.rs:60-77 | The capped append, its cut counted in characters |
| `ShellPump.StreamPump.Pump` | apps/desktop-daemon/crates/daemon-core/src/shell.rs:199-249 | The pump loop computes the line-by-line batching and the final flush, also for a receiver that goes away: the first batch it refuses ends the reading |
| `ShellPump.PumpAgrees` | apps/desktop-daemon/crates/daemon-core/src/shell.rs:199-249 | Until the first drop, chunks sent plus the pending batch, the buffer and the output are one text and every chunk has at least 8192 bytes; after it the buffer without its marker and the stream without its marker are prefixes of the output |
| `ShellPump.ClosedStep` | apps/desktop-daemon/crates/daemon-core/src/shell.rs:212-233 | After the drop nothing more is accumulated or sent |
| `ShellPump.StreamIsBounded` | apps/desktop-daemon/crates/daemon-core/src/shell.rs:199-249 | One stream sends at most 513 chunks; output is dropped exactly when it exceeds 4 MiB; undropped, at most 512 chunks spell buffer and output |
| `ShellPump.FirstOverflowDecides` | apps/desktop-daemon/crates/daemon-core/src/shell.rs:60-77 | The first line that does not fit decides the buffer for good: the lines before it alone if they fill 4 MiB exactly, else those, as many of its characters as bytes are left, and the marker; the live stream spells the lines before it and ends in the marker |
| `ShellPump.BoundIsTight` | apps/desktop-daemon/crates/daemon-core/src/shell.rs:199-249 | 513 lines of 8 KiB send 513 chunks |
| `ShellPump.GoneReceiverGotPrefix` | apps/desktop-daemon/crates/daemon-core/src/shell.rs:199-249 | A receiver that goes away has got a prefix of the whole stream; one that takes 513 chunks misses nothing |
| `ShellPump.CapIsExact` | apps/desktop-daemon/crates/daemon-core/src/shell.rs:65-75 | A truncating push respects the byte cap if and only if the kept characters are single bytes and fill the space; it overshoots by at most three bytes a character |
| `DapDemux.DapClient.DrawSeq` | apps/desktop-daemon/crates/daemon-core/src/dap_ops.rs:167 | Draws the next sequence number |
| `DapDemux.DapClient.RegisterSender` | apps/desktop-daemon/crates/daemon-core/src/dap_ops.rs:174-175 | Registers the sender before the request is written |
| `DapDemux.DapClient.RouteMessage` | apps/desktop-daemon/crates/daemon-core/src/dap_ops.rs:247-282 | A response resolves the request it names, once, as `RoutedReply` says; an event enters the ring |
| `DapDemux.DapClient.FailAll` | apps/desktop-daemon/crates/daemon-core/src/dap_ops.rs:284-297 | The dying reader fails every registered request, in whatever order the map gives |
| `DapDemux.DapClient.CleanTimeout` | apps/desktop-daemon/crates/daemon-core/src/dap_ops.rs:190-193 | A timed-out caller removes its sender |
| `DapDemux.StepKeepsConsistent` | apps/desktop-daemon/crates/daemon-core/src/dap_ops.rs:166-297 | Every step of every participant keeps: numbers are fresh, a reply is pending or sent but not both, and each reply was sent by a response naming its caller or by the dying reader |
| `DapDemux.RunsAreConsistent` | apps/desktop-daemon/crates/daemon-core/src/dap_ops.rs:166-297 | So does every interleaving |
| `DapDemux.OutcomesAreFinal` | apps/desktop-daemon/crates/daemon-core/src/dap_ops.rs:188-194 | An outcome, once reached, is the outcome ever after |
| `DapDemux.SuccessIsOwn` | apps/desktop-daemon/crates/daemon-core/src/dap_ops.rs:253-271 | A success is the body, or null, of a response carrying the caller's own number with success true, and no response serves two callers |
| `DapDemux.FailureIsOwn` | apps/desktop-daemon/crates/daemon-core/src/dap_ops.rs:253-296 | A failure is the exit of the reader, or the message of an unsuccessful response carrying the caller's own number, or "adapter error" without one |
| `DapDemux.RoutedReply` | apps/desktop-daemon/crates/daemon-core/src/dap_ops.rs:253-271 | A response puts its answer into the channel of the registered caller it names and unregisters it; any other message touches no request |
| `DapDemux.PendingAtDeathFails` | apps/desktop-daemon/crates/daemon-core/src/dap_ops.rs:291-296 | Reader death fails every request then registered: a caller that was waiting can only end with that failure, one still to write with it or its own write error, one whose timer had fired times out |
| `DapDemux.WaitingAtDeath` | apps/desktop-daemon/crates/daemon-core/src/dap_ops.rs:188-296 | The only outcome of a caller waiting at the death is the failure sent then |
| `DapDemux.LateCallersGetNothing` | apps/desktop-daemon/crates/daemon-core/src/dap_ops.rs:166-195 | A caller that registers after the reader is gone can only time out or fail to write |
| `DapDemux.LeaksIff` | apps/desktop-daemon/crates/daemon-core/src/dap_ops.rs:174-194 | The sender of a finished caller stays registered if and only if its write failed and, since it registered, neither a response naming it nor the exit of the reader was routed |
| `DapDemux.WriteErrorLeaks` | apps/desktop-daemon/crates/daemon-core/src/dap_ops.rs:177-186 | Input: a failed write leaves its sender registered |
| `DapDemux.RingIsNewest` | apps/desktop-daemon/crates/daemon-core/src/dap_ops.rs:272-278 | The event ring holds the newest hundred events since it was last drained |
| `Framing.FrameReader.ReadHeader` | apps/desktop-daemon/crates/daemon-core/src/lsp_ops.rs:124-140 | The byte loop stops at the first blank line, at end of input, or past 8192 bytes |
| `Framing.FrameReader.Read` | apps/desktop-daemon/crates/daemon-core/src/lsp_ops.rs:119-168 | One frame: header, last Content-Length, size bounds, body; every error case and what is left unread |
| `Framing.HeaderParses` | apps/desktop-daemon/crates/daemon-core/src/lsp_ops.rs:109-153 | A written header parses back to its length |
| `Framing.FrameRoundTrip` | apps/desktop-daemon/crates/daemon-core/src/lsp_ops.rs:109-168 | A written body reads back, leaving the rest untouched, exactly when it has 1 byte to 10 MiB; otherwise the size is refused |
| `Framing.StreamRoundTrip` | apps/desktop-daemon/crates/daemon-core/src/lsp_ops.rs:109-168 | The frames of any list of such bodies read back as exactly that list, then end of stream (LSP 3.17, Base Protocol) |
| `Framing.CleanEndIff` | apps/desktop-daemon/crates/daemon-core/src/lsp_ops.rs:117-140 | For every input, whoever wrote it: a clean end is reported if and only if the input ends, within the header limit, before any blank line |
| `Framing.CutFrame` | apps/desktop-daemon/crates/daemon-core/src/lsp_ops.rs:117-168 | A frame of the daemon cut inside its header reads as a clean end; cut inside its body it is an error |
| `HeaderLines.FrameIsRead` | apps/desktop-daemon/crates/daemon-core/src/lsp_ops.rs:119-168 | For any ASCII header lines within the limit: what is returned and what is left unread, by the length they declare (the last Content-Length line, in any case, white space aside, decides) |
| `HeaderLines.OtherLinesDoNotMatter` | apps/desktop-daemon/crates/daemon-core/src/lsp_ops.rs:141-150 | Other lines before or behind the length line, such as a Content-Type, change nothing |
| `Strings.PrintThenValue` | apps/desktop-daemon/crates/daemon-core/src/lsp_ops.rs:110-149 | A printed decimal number is read back digit by digit |
| `Strings.ParserReads` | apps/desktop-daemon/crates/daemon-core/src/lsp_ops.rs:147 | A length is the decimal of a 64-bit number, with zeros or one plus sign in front; anything else is none |
| `Base64.EncodeByIndex` | apps/desktop-daemon/crates/daemon-core/src/fs_ops.rs:390-417 | The index-based encoder computes the padded letters of the 6-bit groups |
| `Base64.EncodeByChunk` | apps/desktop-daemon/crates/daemon-core/src/browser_ops.rs:2124-2148 | The chunk-based encoder computes the same function, so the two agree on every input |
| `Base64.DecodeText` | apps/desktop-daemon/crates/daemon-core/src/fs_ops.rs:643-684 | The decoder skips blanks, stops at padding, refuses foreign characters and a lone last letter |
| `Base64.DecodeInvertsEncode` | apps/desktop-daemon/crates/daemon-core/src/fs_ops.rs:390-684 | Decoding inverts encoding on every byte string (section 4 of RFC 4648) |
| `Base64.EncodedSize` | apps/desktop-daemon/crates/daemon-core/src/fs_ops.rs:392 | Four characters for every three bytes begun |
| `Base64Bits.EncodedAt` | apps/desktop-daemon/crates/daemon-core/src/fs_ops.rs:390-417 | Three bytes begun give the four letters of the number they make, letter by letter of the alphabet, with "=" for letters no byte reaches |
| `Base64Bits.DecodedAt` | apps/desktop-daemon/crates/daemon-core/src/fs_ops.rs:650-683 | A text of letters is refused exactly when one is left over from fours; otherwise each four letters give the bytes of the number they make, bits past the last byte dropped |
| `Base64Bits.OtherCharacters` | apps/desktop-daemon/crates/daemon-core/src/fs_ops.rs:650-665 | Space, tab, CR and LF are skipped, "=" ends the text, any other character in front of it refuses |
| `Crockford.ShiftIn` | apps/desktop-daemon/crates/daemon-protocol/src/lib.rs:422 | Shifting a byte into the wrapping 32-bit buffer keeps every bit still to be read |
| `Crockford.EmitGroups` | apps/desktop-daemon/crates/daemon-protocol/src/lib.rs:424-430 | The inner loop emits the next 5-bit groups and stops at the requested length |
| `Crockford.ToCrockford` | apps/desktop-daemon/crates/daemon-protocol/src/lib.rs:417-436 | Emits min(chars, ceil(8n/5)) digits, the leading 5-bit groups of the bytes as one zero-padded big-endian bit string; asking for none yields every whole group |
| `Crockford.SameDigits` | apps/desktop-daemon/crates/daemon-protocol/src/lib.rs:417-436 | Two inputs share their first n digits if and only if their first 5n bits agree |
| `Crockford.GeneratePairingCode` | apps/desktop-daemon/crates/daemon-protocol/src/lib.rs:410-415 | The code of five bytes is their first six digits |
| `Crockford.PairingCodeIsThirtyBits` | apps/desktop-daemon/crates/daemon-protocol/src/lib.rs:408-415 | Two draws share a pairing code if and only if their top 30 bits agree |
| `Crockford.DigitOfNumber` | apps/desktop-daemon/crates/daemon-protocol/src/lib.rs:417-436 | A digit is five bits of the number the bytes are, counted from its top, spelt in the alphabet without I, L, O and U |
| `Crockford.CountMeans` | apps/desktop-daemon/crates/daemon-protocol/src/lib.rs:417-436 | Asked for none: the whole groups; asked for some: no more, and fewer only when every bit is in a digit |
| `PtyBuffer.ScrubAnsi` | apps/desktop-daemon/crates/daemon-core/src/pty_ops.rs:112-137 | The nested loops compute the three-state scanner |
| `PtyBuffer.ScrubReads` | apps/desktop-daemon/crates/daemon-core/src/pty_ops.rs:112-137 | A control sequence vanishes up to its final byte from "@" to "~" or as far as the chunk goes, an escape takes one more character, four control characters are dropped and every other character stays |
| `PtyBuffer.CutIsCleanIff` | apps/desktop-daemon/crates/daemon-core/src/pty_ops.rs:112-137 | A cut leaves the scrubbed text unchanged, whatever follows, if and only if the scanner is back in plain text there |
| `PtyBuffer.OutputBuffer.Push` | apps/desktop-daemon/crates/daemon-core/src/pty_ops.rs:153-180 | One chunk: scrub, append character by character, cap the open line; a cut inside a character poisons the buffer |
| `PtyBuffer.OutputBuffer.Drain` | apps/desktop-daemon/crates/daemon-core/src/pty_ops.rs:188-202 | Returns the lines and the open line, forgets the lines |
| `PtyBuffer.PushedLines` | apps/desktop-daemon/crates/daemon-core/src/pty_ops.rs:155-174 | The ring holds the newest thousand complete lines, CR stripped, of all text pushed; the open line is what follows the last newline |
| `PtyBuffer.CutChangesNothing` | apps/desktop-daemon/crates/daemon-core/src/pty_ops.rs:153-180 | Cutting a chunk in plain text with the open line within its cap changes nothing, not even inside a CRLF |
| `PtyBuffer.ChunksDoNotMatter` | apps/desktop-daemon/crates/daemon-core/src/pty_ops.rs:153-180 | Any number of such cuts leave the buffer as one chunk would |
| `PtyBuffer.AnyTwoCuttingsAgree` | apps/desktop-daemon/crates/daemon-core/src/pty_ops.rs:153-180 | For escape-free output whose open line stays within 16 KiB two ways of cutting it leave the same buffer |
| `PtyBuffer.RunsAreAccounted` | apps/desktop-daemon/crates/daemon-core/src/pty_ops.rs:160-171 | In every run of pushes and drains the byte counter covers the lines kept and at most a thousand are kept |
| `PtyBuffer.PushCharAccounts` | apps/desktop-daemon/crates/daemon-core/src/pty_ops.rs:160-171 | The counter is at least what is about to be subtracted |
| `PtyBuffer.DrainReturns` | apps/desktop-daemon/crates/daemon-core/src/pty_ops.rs:188-199 | In every run a drain returns the newest thousand lines completed since the drain before, and the open line, which every drain repeats until it completes |
| `PtyBuffer.DrainsDeliver` | apps/desktop-daemon/crates/daemon-core/src/pty_ops.rs:152-202 | Over every run the lines the drains return, followed by those kept, are every complete line of the output once and in order, if and only if never more than a thousand lines complete between two drains |
| `PtyBuffer.PoisonedIff` | apps/desktop-daemon/crates/daemon-core/src/pty_ops.rs:175-179 | A push panics and poisons the buffer if and only if the open line exceeds 16 KiB and no character boundary lies where it is to be cut |
| `PtyBuffer.PushCaps` | apps/desktop-daemon/crates/daemon-core/src/pty_ops.rs:153-180 | A push keeps the lines completed and the last 16 KiB of the open line, all of it when that poisons the buffer |
| `PtyBuffer.AsciiRunsNeverPoison` | apps/desktop-daemon/crates/daemon-core/src/pty_ops.rs:152-202 | ASCII output never poisons, in any run |
| `PtyBuffer.AccentPoisons` | apps/desktop-daemon/crates/daemon-core/src/pty_ops.rs:175-179 | Input: an accented letter and 16383 plain ones poison |
| `PtyBuffer.DropBytesAt` | apps/desktop-daemon/crates/daemon-core/src/pty_ops.rs:176-179 | Capping keeps a suffix, and fails exactly when the cut falls inside a character |
| `AxDepth.ParentMaps` | apps/desktop-daemon/crates/daemon-core/src/browser_ops.rs:2029-2051 | By id the last parent named wins; by child the first node listing it |
| `AxDepth.ParentIs` | apps/desktop-daemon/crates/daemon-core/src/browser_ops.rs:2029-2074 | By the node list: the parent is the one named by the last node with the id that names any; if none does, the first node that lists it; never itself |
| `AxDepth.DepthMemo.Depth` | apps/desktop-daemon/crates/daemon-core/src/browser_ops.rs:2058-2074 | The memoised climb returns the true chain length of every node whose chain ends, keeps the cache in agreement with the unmemoised definition, and terminates |
| `AxDepth.DepthMemo.DepthAll` | apps/desktop-daemon/crates/daemon-core/src/browser_ops.rs:2053-2074 | Any queries in any order each get their true depth |
| `AxDepth.DepthIsUnique` | apps/desktop-daemon/crates/daemon-core/src/browser_ops.rs:2068-2071 | The depth is well defined |
| `AxDepth.EndsIffNeverRepeats` | apps/desktop-daemon/crates/daemon-core/src/browser_ops.rs:2053-2074 | The climb from a node ends if and only if it meets no node twice |
| `AxDepth.CyclesNeverEnd` | apps/desktop-daemon/crates/daemon-core/src/browser_ops.rs:2055-2071 | Input: two nodes naming each other never end, although a node naming itself is a root |

## Left out

- Presentation and platform glue: tray, console, command line, HTTP server,
  mobile apps; consent broker, capability gate internals (a set of writable
  paths here) and memory store.
- Real input and output: files, processes, pipes, sockets and SQLite calls
  succeed or fail as parameters say. A write that fails midway through a rename
  over several files, and the read-back verification after each write, are not
  modelled.
- AstEdit.SourceFile.Rewrite: matches carry their replacement as bytes; how the
  pattern library finds them, and its lossy conversion of a replacement that is
  not UTF-8, are not modelled; nor is its temporary file.
- WorkspaceEdit.Workspace.Apply: writes and renames succeed; the temporary file is
  named as on a slash-separated path. Which file a path names is a parameter; a
  target that is a symbolic link, which the rename replaces, is not modelled.
- FileUri.UriToBytes: `from_utf8_lossy` on decoded bytes that are not UTF-8 is a
  parameter of the workspace.
- HashlinePatch.TextFile.Patch: SHA-256 and the reading of bytes that are not UTF-8
  are function parameters; of the digest only its six hex digits matter. Annotated
  reads cut short by a byte limit are not modelled.
- Checkpoint.CheckpointStore.Capture: directory targets, creation of parent
  directories and the JSON form of the index are not modelled; captures and blob
  writes succeed.
- Checkpoint.RunKeepsSound: assumes strictly increasing clock readings, which the
  code does not enforce, and so do `IndexIsLongestRun`, `RestoreIsExact` and
  `UndoIsExact`; at any readings `AnyRunFollows`, `EvictedExactly`,
  `LiveContentIsExact` and `RestoreAtAnyReading` hold.
- ChatConvergence.ConvergesIff: for dated snapshots; one without a timestamp is dated
  by the clock at its landing (`UndatedIsDatedByClock`), so each landing is another
  snapshot.
- EvalRouter.EvalEngine.Call: code-size and scope checks and the spawning of the
  runtime are left out; a deadline is the end of the frames that arrive before it.
- ChatStore.ChatStore.UpsertConversation: the database is two maps. Listing, search,
  artifacts and projects are left out.
- ShellPump.StreamPump.Pump: lines that are not UTF-8 are not modelled; timeouts are
  left out.
- DapDemux.RunsAreConsistent: message parsing is left out, and teardown appears
  only as the reader being aborted; a request cancelled by its caller is not
  modelled.
- AxDepth.DepthMemo.Depth: for nodes whose chain ends; for the others the climb
  has no result, as `EndsIffNeverRepeats` states.
- The process log ring (`LogRing::read` in proc_ops.rs), whose paging does not
  match its description after the first eviction.
- AES-GCM, Ed25519, the keyring, version comparison and the registry of tasks:
  cryptographic libraries, or one-step facts.
