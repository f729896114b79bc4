# Verified model of a game-server daemon

This project models the stateful algorithms of a daemon that runs game servers in containers, and proves what they
promise. `dafny verify dfyconfig.toml` checks it.

| module | models |
|---|---|
| `Usage`, `DiskUsageTree` | the tree of directory sizes: once as one map from path to size, once as the linked objects that are changed in place |
| `Ledger`, `Accounting`, `Runs` | the accounting operations over tree, cached total and limit, beside a plain book of how many bytes are charged at which path |
| `Scan`, `Filesystem` | the periodic disk scan; the operations in place on the linked tree |
| `AllocationRace`, `Writers`, `WriterRuns` | several tasks allocating at once; the two writers that charge space in batches; several of them on one file system |
| `LineSplitter`, `Throttle` | cutting a container's raw output into lines; dropping lines that come too fast |
| `Terminal`, `Editing`, `LineEditor`, `KeyCodes` | one terminal row; what each key does to an edited line; the byte-driven editor that draws it; its laws on the bytes a terminal sends |
| `RateLimiter`, `FixedCopy` | readers slowed to a rate; copying a reader padded or cut to a fixed size |
| `JsonValues`, `JsonConfig`, `Properties` | rewriting JSON and properties files |
| `Activities`, `CrashMonitor`, `Multipart` | merging logged activities; what happens when a container exits; names of RAR parts |

The main results:

- In every run of allocations, truncations, renames and rescans that releases only what was charged, every state of the
  tree is an exact index of the bytes booked below each path, with the cached total their sum, precisely when no deleted
  file meets a node with bytes under its own name and no directory is renamed onto one (`Runs.RunKeepsIndexIff`). Both
  failures are shown at an input (`Runs.DeletionOverDirectory`, `Runs.RenameOntoDirectory`).
- Whatever directories are renamed onto, in every state of such a run each node records at least its own bytes and its
  children's, precisely when each deletion leaves that much at the one node under the deleted file's name
  (`Runs.RunKeepsSizesIff`); as long as no directory replaces another, that is when no deletion meets a node with bytes
  (`Runs.RunKeepsSizesIffClean`). Then the tree is the exact index of a book that covers the bytes booked
  (`Runs.RunKeepsShadow`), and of those bytes alone whenever the cached total is their sum (`Runs.RunIsIndexedIff`).
- The in-place tree does what the map says, object by object: sizes, entries, what a removal takes out and what a
  rename hangs up again (`DiskUsageTree`).
- The cached total passes the limit by at most one growth per further task, and that bound is reached
  (`AllocationRace.OvershootBound`, `AllocationRace.OvershootIsReached`). However the checks, additions and tree updates
  of several tasks interleave with the operations of others, the tree is exact and the total ahead by just the bytes not
  yet recorded, precisely when no rescan runs while there are some (`AllocationRace.RaceKeepsAheadIff`).
- Several writers on one file system keep the tree an exact index of the bytes granted, and after an unrefused flush of
  all each directory is booked the extents of its files (`WriterRuns.CallsKeepIndex`,
  `WriterRuns.FlushedExtentsAreBooked`).
- An asynchronous write that has to wait for its charge answers as if nothing was written: a caller that repeats its
  buffer is sure to have it in the file once precisely when the rest of the buffer makes no batch due
  (`Writers.RepeatingIsSafeIff`, `Writers.WaitingWriteIsRepeated`).
- However a byte stream is chunked, the lines cut from it are the only cutting of the stream into lines of at most 512
  bytes (`LineSplitter.ReadLines`, `LineSplitter.CuttingIsUnique`).
- What the shell's editor writes keeps a terminal row equal to the edited line and the column equal to the cursor
  (`LineEditor.LineEditor.HandleInput`). The row interprets BS, CR, CUB, CUF and EL as sections 8.3.5, 8.3.15, 8.3.18,
  8.3.20 and 8.3.41 of ECMA-48 define them. The codes a terminal sends for any keys are read as these keys
  (`KeyCodes.CodesAreRead`), and lines sent come back with ESC [ A (`KeyCodes.SentLinesAreRecalled`).
- Merging activities loses no file over a whole run exactly when every round found its queue mergeable; an activity more
  than a minute after the first of its key replaces everything logged before it (`Activities.RunKeepsEverythingIff`,
  `Activities.LateWriteLosesFirst`).
- Part `m` of part `n` of an archive is part `m`, exactly when no text in front of the number comes to match it
  (`Multipart.NthOfNthIff`).
- Automatic restarts are a timeout apart however the exit tasks interleave, and a crash that comes a timeout after the last
  one always restarts (`CrashMonitor.RestartsAreSpaced`, `CrashMonitor.RestedCrashRestarts`).
- A throttled output lets through a bounded number of lines in any time, and lines an interval apart always
  (`Throttle.RunBound`, `Throttle.SpacedLinesPass`).

Paths are sequences of components; sizes are 64-bit and saturate where the code saturates. Clocks, metadata, answers of
readers and files, and the order in which hash maps are walked are parameters or arbitrary choices. Times are real
numbers or counts of nanoseconds.

## Model

| member | source | states |
|---|---|---|
| `DiskUsageTree.DiskUsage.GetSize` | application/src/server/filesystem/usage.rs:10-25 | the size recorded at the path, found exactly when the node exists |
| `DiskUsageTree.DiskUsage.UpdateSize` | application/src/server/filesystem/usage.rs:27-111 | every node below the root on the way to the path is adjusted, saturating, missing ones made; the root's size and all other nodes stay; both variants are this walk |
| `DiskUsageTree.DiskUsage.RecursiveRemove` | application/src/server/filesystem/usage.rs:126-145 | the subtree is unlinked and handed out whole, and every node from there up to the called one loses its size |
| `DiskUsageTree.DiskUsage.RemovePath` | application/src/server/filesystem/usage.rs:113-124 | the node at the path is taken out with all below it, its size off every ancestor but the root; nothing happens for the empty or an unknown path |
| `DiskUsageTree.DiskUsage.Clear` | application/src/server/filesystem/usage.rs:147-149 | only the root is left, with the size it had |
| `DiskUsageTree.DiskUsage.AddDirectory` | application/src/server/filesystem/usage.rs:151-170 | the given tree stands at the target in place of what was there; every ancestor, the root included, gains its size |
| `DiskUsageTree.DiskUsage.MoveDirectory` | application/src/server/filesystem/mod.rs:379-391 | removal and attachment together are one renaming of the recorded sizes |
| `Usage.ChargedSizeAt` | application/src/server/filesystem/usage.rs:27-111 | after a charge a node's size is adjusted iff it lies on the way to the path and is not the root; nodes exist iff they did or lie on the way |
| `Usage.ChargedIsTree` | application/src/server/filesystem/usage.rs:27-111 | a charge keeps every node's parent in the tree |
| `Accounting.TruncateIsDetach` | application/src/server/filesystem/mod.rs:315-333 | charging a directory down to zero and removing it leaves exactly the tree that one removal leaves |
| `Accounting.AllocateMeaning` | application/src/server/filesystem/mod.rs:413-452 | growth is refused iff it is not ignorant and passes a nonzero limit; a refusal changes nothing; a grant moves total and sizes on the way by the delta |
| `Accounting.SignedWord` | application/src/server/filesystem/mod.rs:111-116 | a length taken as a signed number is the one of 64 bits that agrees with it modulo 2^64 |
| `Accounting.DetachedAt` | application/src/server/filesystem/usage.rs:113-145 | a removal clears all at and below the path, lowers the non-root ancestors and touches nothing else |
| `Accounting.RenameMovesSubtree` | application/src/server/filesystem/usage.rs:113-170 | for every suffix, the new path followed by it records afterwards what the old path followed by it recorded |
| `Accounting.RenameElsewhere` | application/src/server/filesystem/usage.rs:113-170 | with a fresh target outside the directory: ancestors of only the old path lose its size, of only the new path gain it, common ones and unrelated nodes keep theirs, nothing stays below the old path |
| `Accounting.ChargeKeepsIndex` | application/src/server/filesystem/mod.rs:413-452 | a charge or release keeps tree and cached total an exact index of the book |
| `Accounting.FileDeletionKeepsIndexIff` | application/src/server/filesystem/mod.rs:320-328 | releasing a deleted file's bytes at the file's own path keeps the index iff no node with bytes stands under that name |
| `Accounting.TruncateDirectoryKeepsIndex` | application/src/server/filesystem/mod.rs:315-333 | truncating a directory keeps the index of the book without the directory |
| `Accounting.RenameKeepsIndexIff` | application/src/server/filesystem/mod.rs:379-391 | renaming a directory keeps the index of the book with its charges moved iff the node it replaces records no bytes |
| `Accounting.RenameKeepsMovedOver` | application/src/server/filesystem/mod.rs:379-391 | whatever a renamed directory replaces, the tree is the exact index of its charges moved and of the replaced bytes, which stay with the parent and in the total |
| `Runs.StepKeepsIndexIff` | application/src/server/filesystem/mod.rs:315-590 | an operation that releases only charged bytes keeps the exact index iff, as a file deletion, it meets no node with bytes under the file's name and, as a rename, it replaces none |
| `Runs.RunKeepsIndexIff` | application/src/server/filesystem/mod.rs:315-590 | every state of such a run is an exact index iff each deletion and each rename of a directory met its condition |
| `Runs.RunKeepsShadow` | application/src/server/filesystem/mod.rs:315-590 | in such a run with arbitrary renames, while deletions leave enough, the tree is the exact index of a book that covers the bytes booked |
| `Runs.StepKeepsSizesIff` | application/src/server/filesystem/mod.rs:315-590 | an operation leaves every node recording at least its own bytes and its children's iff, as a file deletion, it leaves that much at the one node under the file's name |
| `Runs.RunKeepsSizesIff` | application/src/server/filesystem/mod.rs:315-590 | in a run that releases only charged bytes every state is like that, the cached total standing for the root, iff each deletion leaves enough |
| `Runs.RunKeepsSizesIffClean` | application/src/server/filesystem/mod.rs:315-590 | where no directory is renamed onto one with bytes, that is iff no deletion meets a node with bytes under the file's name |
| `Runs.RunIsIndexedIff` | application/src/server/filesystem/mod.rs:315-590 | the state a run whose deletions leave enough ends in is an exact index iff the cached total is the bytes booked |
| `Runs.DeletionOverDirectory` | application/src/server/filesystem/mod.rs:320-328 | after a scan that met a directory x, deleting a file under the name x leaves no index |
| `Runs.DeletionUncoversDirectory` | application/src/server/filesystem/mod.rs:320-328 | ... and the node x then records less than its own bytes |
| `Runs.RenameOntoDirectory` | application/src/server/filesystem/mod.rs:379-391 | after a scan that met two directories, renaming one onto the other leaves no index |
| `Runs.ChildrenSplit` | application/src/server/filesystem/usage.rs:27-111 | in an indexed tree the bytes below a node are its listed children's sizes plus the charges outside them |
| `Runs.NodeIsOwnPlusChildren` | application/src/server/filesystem/usage.rs:27-111 | in an indexed tree a node's size is the bytes charged at it plus its children's sizes, and the cached total is the top-level sizes plus the bytes charged at the root |
| `Scan.ScanMeaning` | application/src/server/filesystem/mod.rs:78-138 | after the scan a node below the root records the sum of the lengths of all entries below its path, its own directory entry included, cut at 2^64 - 1, and exists iff there is such an entry |
| `Filesystem.WalkMeaning` | application/src/server/filesystem/mod.rs:104-118 | for each list of names the size recorded after the walk is the sum over the entries whose path continues it, a file under just these names left out |
| `Scan.ScanOrderIndependent` | application/src/server/filesystem/mod.rs:78-138 | tree and total are the same for every order of the entries |
| `Scan.ScanTotalMeaning` | application/src/server/filesystem/mod.rs:119-138 | the total is the sum of all entries modulo 2^64 |
| `Scan.ScanRoot` | application/src/server/filesystem/mod.rs:78-138 | the scan leaves a tree whose root records no size |
| `Scan.ScanIsIndexed` | application/src/server/filesystem/mod.rs:78-138 | a scan below 2^63 bytes leaves an exact index of what it met |
| `Filesystem.Filesystem.AllocateInPath` | application/src/server/filesystem/mod.rs:413-574 | refuses, without any change, exactly the growth over a nonzero limit that is not to be ignored; otherwise total and tree change by the delta |
| `Filesystem.Filesystem.TruncatePath` | application/src/server/filesystem/mod.rs:315-342 | a file is released at its own path; a directory is released and removed |
| `Filesystem.Filesystem.RenameDirectory` | application/src/server/filesystem/mod.rs:379-391 | the recorded sizes are those of the renamed directory |
| `Filesystem.Filesystem.RenameFile` | application/src/server/filesystem/mod.rs:392-397 | the bytes move from the old parent to the new one, limit ignored |
| `Filesystem.Filesystem.TruncateRoot` | application/src/server/filesystem/mod.rs:576-590 | tree and total are empty, but for the root's own size |
| `Filesystem.Filesystem.ScanWalk` | application/src/server/filesystem/mod.rs:78-125 | the tree filled entry by entry records for each directory the sum of the entries in and below it, and the total is that of all |
| `Filesystem.Filesystem.Rescan` | application/src/server/filesystem/mod.rs:127-138 | the finished walk, with these sizes, replaces tree and total |
| `AllocationRace.RunKeepsOvershoot` | application/src/server/filesystem/mod.rs:413-452 | the total and the growths granted but not yet added stay within the limit plus the slack of the other tasks |
| `AllocationRace.OvershootBound` | application/src/server/filesystem/mod.rs:418-428 | n tasks that check and add in any interleaving, each growth at most D, never pass the limit by more than (n - 1) D |
| `AllocationRace.SingleTaskStaysWithinLimit` | application/src/server/filesystem/mod.rs:418-428 | one task never passes the limit |
| `AllocationRace.OvershootIsReached` | application/src/server/filesystem/mod.rs:418-428 | for every n there is a run that ends exactly (n - 1) D over the limit |
| `AllocationRace.RaceKeepsAheadIff` | application/src/server/filesystem/mod.rs:413-450 | in every interleaving of checks, additions and tree updates with other operations, every state has an exact tree and a total ahead by just the unrecorded bytes iff no rescan or truncation of the root runs while there are some |
| `AllocationRace.RaceSettlesIndexed` | application/src/server/filesystem/mod.rs:413-450 | then a state with no growth in between is an exact index again |
| `AllocationRace.RescanWhileCounted` | application/src/server/filesystem/mod.rs:127-138 | a rescan between counting and recording a byte leaves a tree that records it and a total that does not |
| `AllocationRace.RaceProjects` | application/src/server/filesystem/mod.rs:413-450 | in its totals a run of the race with the tree is a run of the race of checks and additions |
| `AllocationRace.TreeRaceOvershoot` | application/src/server/filesystem/mod.rs:413-450 | so the bound on the overshoot holds with tree updates and other operations in between |
| `Writers.FileSystemWriter.AllocateAccumulated` | application/src/server/filesystem/writer.rs:68-84 | a granted batch is charged, a refused one stays accumulated; charged plus accumulated stays the file's extent |
| `Writers.FileSystemWriter.Write` | application/src/server/filesystem/writer.rs:86-111 | the extent grows to the furthest end of any write; the uncharged part is charged once it reaches the threshold, and a refusal is reported although the bytes are written |
| `Writers.WrittenMeaning` | application/src/server/filesystem/writer.rs:86-111 | below 1048576 bytes a write is only counted and nothing is charged; from there on all counted bytes are charged at once, and stay counted if refused |
| `Writers.FileSystemWriter.Flush` | application/src/server/filesystem/writer.rs:113-122 | a flush that is not refused leaves the whole extent charged |
| `Writers.FileSystemWriter.Seek` | application/src/server/filesystem/writer.rs:125-139 | a seek charges first and moves the position only when that was granted |
| `WriterRuns.CallsKeepIndex` | application/src/server/filesystem/writer.rs:68-137 | in every interleaving of writes, seeks and flushes of several writers the tree stays an exact index, and each directory is booked just the bytes granted to its writers |
| `WriterRuns.FlushedExtentsAreBooked` | application/src/server/filesystem/writer.rs:68-137 | after an unrefused flush of all, each directory is booked the sum of the extents of the files written into it |
| `Writers.AsyncFileSystemWriter.StartAllocation` | application/src/server/filesystem/writer.rs:213-229 | the batch goes into flight unless another is, so at most one ever is |
| `Writers.AsyncFileSystemWriter.PollAllocation` | application/src/server/filesystem/writer.rs:231-251 | a granted charge is booked, a refused one is gone; charged + refused + in flight + accumulated stays the extent |
| `Writers.AsyncFileSystemWriter.PollWrite` | application/src/server/filesystem/writer.rs:254-289 | the file is asked only when no charge is outstanding; counters and answer are determined, also where the file took bytes and the poll answers Pending or StorageFull |
| `Writers.RepeatingIsSafeIff` | application/src/server/filesystem/writer.rs:254-289 | for a caller that repeats a buffer until it is answered, the file is sure to have it once, however the polls go, iff writing all that is left of it stays within the extent or leaves fewer than 1048576 bytes to be charged |
| `Writers.GivenOnceIff` | application/src/server/filesystem/writer.rs:254-289 | for given polls it does iff every poll in which the file took bytes was answered, and otherwise the file has more |
| `Writers.WaitingWriteIsRepeated` | application/src/server/filesystem/writer.rs:254-289 | a buffer of a batch's size whose charge waits once stands in the file twice |
| `Writers.AsyncFileSystemWriter.PollFlush` | application/src/server/filesystem/writer.rs:291-330 | a flush or shutdown that reaches the file leaves nothing accumulated or in flight |
| `Writers.AsyncFileSystemWriter.StartSeek` | application/src/server/filesystem/writer.rs:333-339 | accumulated bytes go into flight; none is lost |
| `Writers.AsyncFileSystemWriter.PollComplete` | application/src/server/filesystem/writer.rs:341-356 | the position follows the file only once the charge is settled |
| `Writers.AsyncFileSystemWriter.Drop` | application/src/server/filesystem/writer.rs:359-386 | the accumulated bytes are handed over, and with those charged, refused and cancelled they make up the extent |
| `LineSplitter.CutsAppend` | application/src/server/container.rs:243-368 | cutting a prefix first and the rest later gives the lines of the whole |
| `LineSplitter.CutsAreACutting` | application/src/server/container.rs:246-368 | the lines, their newlines and the tail rebuild the stream; a line has no newline and at most 512 bytes, and exactly 512 where no newline ended it |
| `LineSplitter.CuttingIsUnique` | application/src/server/container.rs:246-368 | no other cutting of the stream has these properties |
| `LineSplitter.Splitter.CutLine` | application/src/server/container.rs:248-356 | one round cuts the first line of what is pending, or finds none |
| `LineSplitter.Splitter.CutLines` | application/src/server/container.rs:246-360 | the search loop ends, with every line cut that can be |
| `LineSplitter.Splitter.Feed` | application/src/server/container.rs:243-368 | after each chunk the lines are those of everything received, at most 512 bytes are pending and the buffer holds at most 1536 |
| `LineSplitter.Splitter.Finish` | application/src/server/container.rs:371-382 | a non-empty tail is the last line |
| `LineSplitter.ReadLines` | application/src/server/container.rs:243-382 | for every chunking, the lines are those of the concatenated stream |
| `Throttle.Throttle.AllowRatelimit` | application/src/server/container.rs:207-241 | one line is counted and let through or not as the window says |
| `Throttle.PassedBound` | application/src/server/container.rs:207-241 | from any window on, a run opens no more windows than intervals fit, and each lets through its share |
| `Throttle.FewLinesPass` | application/src/server/container.rs:207-241 | nothing is dropped while the throttle is off or before `lines` lines came in a window |
| `Throttle.WindowShare` | application/src/server/container.rs:207-241 | while the interval lasts, a window lets through exactly the lines missing to one less than `lines`, and what follows finds it with all of them counted |
| `Throttle.DueLineReopens` | application/src/server/container.rs:207-241 | a line that comes with `lines` reached and the interval over is let through, and so are exactly `lines` - 1 more within the interval after it |
| `Throttle.EarlyLinesKeepWindow` | application/src/server/container.rs:207-241 | the lines before `lines` are reached pass and leave the start of the window where it is, however late they come |
| `Throttle.SpacedLinesPass` | application/src/server/container.rs:207-241 | lines that come an interval apart are all let through, from any window |
| `Throttle.ThrottleRecovers` | application/src/server/container.rs:207-241 | after any number of dropped lines the first one past the interval is let through and none of the next `lines` - 1 is lost |
| `Throttle.RunBound` | application/src/server/container.rs:207-241 | a run of T seconds lets through fewer than lines (floor(T / interval) + 1) lines |
| `LineEditor.LineEditor.HandleUp` | application/src/ssh/shell.rs:330-364 | recalls the entry before, recording a line being typed first; the row then shows it |
| `LineEditor.LineEditor.HandleDown` | application/src/ssh/shell.rs:365-395 | recalls the entry after, or an empty line past the last; the row then shows it |
| `LineEditor.LineEditor.HandleRight` | application/src/ssh/shell.rs:396-405 | moves the cursor on row and line alike, or only rings |
| `LineEditor.LineEditor.HandleLeft` | application/src/ssh/shell.rs:406-415 | moves the cursor back on row and line alike, or only rings |
| `LineEditor.LineEditor.HandleBackspace` | application/src/ssh/shell.rs:545-579 | deletes before the cursor; the row then shows the shorter line |
| `LineEditor.LineEditor.HandleText` | application/src/ssh/shell.rs:580-610 | inserts at the cursor while the line has room; the row then shows the longer line |
| `LineEditor.LineEditor.HandleEnter` | application/src/ssh/shell.rs:432-544 | the line goes to the history unless it repeats the last entry, a history of 16 or more forgets its first, and the editor is empty |
| `LineEditor.LineEditor.HandleByte` | application/src/ssh/shell.rs:811-863 | the three escape fields follow the decoder of ESC [ x sequences, and a completed key is pressed |
| `LineEditor.LineEditor.HandleInput` | application/src/ssh/shell.rs:799-873 | the editor does what the keys of the input say, and for printable bytes, backspaces and arrows what it writes keeps the row showing line and cursor |
| `KeyCodes.CodesAreRead` | application/src/ssh/shell.rs:320-432 | the codes of any keys, one after the other, are read as these keys: 27 91 65 up, 66 down, 67 right, 68 left, 13 or 10 enter, 8 or 127 backspace, any other byte but 27 itself |
| `KeyCodes.KeysAppend` | application/src/ssh/shell.rs:799-863 | the keys read do not depend on where the input is cut |
| `KeyCodes.UnknownSequenceIsIgnored` | application/src/ssh/shell.rs:811-849 | 27 and two bytes that make no arrow change nothing |
| `KeyCodes.KeysAtTheirLimit` | application/src/ssh/shell.rs:330-610 | left and backspace at the start, right at the end, text in a full line, up without an earlier line and down without a recalled one change nothing |
| `KeyCodes.SentLinesAreRecalled` | application/src/ssh/shell.rs:330-395 | after lines typed and ended by 13, k times 27 91 65 show the k-th last, as far as sixteen back, and d times 27 91 66 then the one d lines later or an empty line |
| `KeyCodes.CondensedLinesAreRecalled` | application/src/ssh/shell.rs:432-445 | the same where lines repeat the one before, which are not counted |
| `KeyCodes.OlderLinesAreForgotten` | application/src/ssh/shell.rs:432-445 | sixteen or more times 27 91 65 show the sixteenth last line |
| `KeyCodes.SentAndDraftedLines` | application/src/ssh/shell.rs:330-345 | lines left unsubmitted by up and down enter the history too, which holds the last twenty |
| `KeyCodes.LineIsEdited` | application/src/ssh/shell.rs:396-610 | a line typed, walked back, erased in, walked forward and typed into holds just the pieces left, the new one in its place, with the cursor behind it |
| `KeyCodes.LongLineIsCut` | application/src/ssh/shell.rs:580-610 | a line takes the first 1024 bytes typed and no more |
| `KeyCodes.WholeLineIsSent` | application/src/ssh/shell.rs:432-544 | the whole line is recorded wherever the cursor stands, an empty one never |
| `KeyCodes.ShownKeysArePlain` | application/src/ssh/shell.rs:799-873 | arrows, backspaces and the bytes 32 to 126 make an input whose drawing the row follows |
| `Editing.PressKeepsSound` | application/src/ssh/shell.rs:320-611 | every key keeps the history index valid and line and history entries at 1024 bytes |
| `Editing.PressKeepsClean` | application/src/ssh/shell.rs:320-611 | printable keys, backspaces and arrows keep line and history printable |
| `Editing.LeftKeepsLine` | application/src/ssh/shell.rs:396-415 | left keeps the line, and right undoes it |
| `Editing.RightKeepsLine` | application/src/ssh/shell.rs:396-415 | right keeps the line, and left undoes it |
| `Editing.TypedIsErased` | application/src/ssh/shell.rs:545-610 | as many backspaces as bytes were typed restore line, cursor and history |
| `Editing.UpsThenDowns` | application/src/ssh/shell.rs:330-395 | from an empty line k steps up recall the k-th last entry, k - 1 steps down come back to the last one and k to the empty line |
| `Editing.SubmittedLines` | application/src/ssh/shell.rs:432-610 | a run of typed and submitted lines leaves the latest sixteen of them, none twice in a row, as the history |
| `Editing.SubmittedLinesAreRecalled` | application/src/ssh/shell.rs:330-610 | after such a run k steps up show the k-th last line, repeats not counted |
| `Editing.ShowInsert` | application/src/ssh/shell.rs:580-610 | the typed byte, the rest of the line and the way back redraw the row |
| `Editing.ShowErase` | application/src/ssh/shell.rs:545-579 | backspace, erase to the end, the rest of the line and the way back redraw the row |
| `Editing.ShowRecall` | application/src/ssh/shell.rs:330-395 | return, erase line and the recalled entry redraw the row |
| `Terminal.ReceiveCursorBack` | application/src/ssh/shell.rs:560-567 | the decimal cursor-back sequence moves the column back by its count |
| `Terminal.CursorBytes` | application/src/ssh/shell.rs:396-415 | 8 and 27 91 68 move the column back by one, 27 91 67 forward, 13 to the left margin |
| `Terminal.ErasingBytes` | application/src/ssh/shell.rs:353-356 | 27 91 75 blanks the row from the cursor on, 27 91 50 75 all of it |
| `Terminal.CursorBackBytes` | application/src/ssh/shell.rs:560-567 | the way back is 27 91, the count in decimal digits, and 68 |
| `RateLimiter.LimitedReader.Read` | application/src/io/limited_reader.rs:28-68 | the sleep and the window after a read, also when the inner reader fails |
| `RateLimiter.DelayIsLeast` | application/src/io/limited_reader.rs:37-57 | the sleep is the least one after which the bytes counted are paid for or the second is over |
| `RateLimiter.ReadsAreCounted` | application/src/io/limited_reader.rs:60-65 | reads that begin within a second of the window are added up in it; the first later one starts it anew with none |
| `RateLimiter.AsyncDelayIsLeast` | application/src/io/limited_reader.rs:95-120 | an asynchronous read waits iff more is counted than the time within the second pays for, and then the least time after which it is paid for or the second is over |
| `RateLimiter.ReadKeepsPaid` | application/src/io/limited_reader.rs:28-68 | after every read the bytes counted are paid for by time, but for the last read, or a second has passed |
| `RateLimiter.ThroughputBound` | application/src/io/limited_reader.rs:28-68 | reads of at most B bytes pass at most (rate + 3 B)(floor(T) + 1) bytes in T seconds, even if sleeps overrun |
| `RateLimiter.AsyncThroughputBound` | application/src/io/limited_reader.rs:95-177 | the asynchronous reader, which checks again before every read, passes at most (rate + 2 B)(floor(T) + 1) |
| `FixedCopy.OutputIsPaddedIff` | application/src/io/fixed_reader.rs:24-47 | a copy is what the inner reader delivered followed by zeros iff after a short answer it delivers nothing but zeros |
| `FixedCopy.LateByteIsShifted` | application/src/io/fixed_reader.rs:24-47 | a reader short at first and giving a byte later: the copy holds the zeros in front of the byte |
| `FixedCopy.StreamIsCutOrPadded` | application/src/io/fixed_reader.rs:24-47 | a stream that is short only at its end is copied cut, or padded with zeros, to the size |
| `FixedCopy.FixedReader.Read` | application/src/io/fixed_reader.rs:24-47 | fills what is left of buffer and size with the inner bytes and zeros; an error leaves the count as it was |
| `FixedCopy.CopyShared` | application/src/io/mod.rs:21-37 | ends; writes exactly the size for every reader that does not fail, and up to the failing read otherwise |
| `JsonConfig.LookupUpdated` | application/src/server/configuration/process.rs:612-744 | the written path reads back the typed value, or the raw string where the leaf's parent was neither object nor absent |
| `JsonConfig.LookupElsewhere` | application/src/server/configuration/process.rs:612-744 | every path that is neither prefix nor extension of the written one reads as before |
| `JsonConfig.TypedMeaning` | application/src/server/configuration/process.rs:634-690 | a value is true or false iff it spells the word in any case, the integer i iff it is an optional sign and digits that denote i within 64 bits, else the fraction it reads as, else itself |
| `JsonConfig.IntegersReadBack` | application/src/server/configuration/process.rs:647-653 | a decimal integer is written as that integer iff it fits 64 bits |
| `JsonConfig.UpdateTwiceIff` | application/src/server/configuration/process.rs:612-744 | a second update changes nothing iff the parent fitted or the value types as a string |
| `JsonConfig.SecondUpdateTypes` | application/src/server/configuration/process.rs:612-744 | where a string stands at a, writing 1 at a.b leaves the text first and the number the second time |
| `JsonConfig.UpdateThrice` | application/src/server/configuration/process.rs:612-744 | a third update never changes anything |
| `JsonConfig.Document.ApplyReplacements` | application/src/server/configuration/process.rs:526-610 | the replacements that resolve are applied in order |
| `JsonConfig.ReplaceTwice` | application/src/server/configuration/process.rs:526-610 | for independent paths whose parents fit, a second pass changes nothing |
| `JsonConfig.ReplaceThrice` | application/src/server/configuration/process.rs:526-610 | for independent paths that resolve, a third pass changes nothing on any document |
| `Properties.ProcessPropertiesFile` | application/src/server/configuration/process.rs:409-523 | the loops build exactly the rewritten lines followed by a line for each key not met |
| `Properties.LineEnds` | application/src/server/configuration/process.rs:424-424 | a line ends at a newline with or without one carriage return before it |
| `Properties.AssignmentIsRead` | application/src/server/configuration/process.rs:427-452 | blanks, a key, blanks, an equals sign and a value are read as that key and all of that value |
| `Properties.OtherLinesHaveNoKey` | application/src/server/configuration/process.rs:427-448 | blank lines, comments and lines without an equals sign have no key |
| `Properties.LineIsRewritten` | application/src/server/configuration/process.rs:460-490 | the first replacement of the key that resolves, and asks for no value or the one that stands there, writes `key=value` |
| `Properties.LineIsKept` | application/src/server/configuration/process.rs:460-490 | without such a replacement the line stays as it is |
| `Properties.MissingInOrder` | application/src/server/configuration/process.rs:496-514 | keys not met are added as `key=value` in the order of the replacements |
| `Properties.EveryKeyReadsBack` | application/src/server/configuration/process.rs:420-523 | each replaced key occurs in the result and reads back its value wherever it does |
| `Properties.OtherLinesSurvive` | application/src/server/configuration/process.rs:420-523 | all other lines survive in order |
| `Properties.RewriteTwice` | application/src/server/configuration/process.rs:420-523 | rewriting the result again changes nothing |
| `Activities.ActivityManager.SendRound` | application/src/server/activity.rs:98-242 | the first activities of a merge of the queue are sent, as many as the limit allows; the others stay queued |
| `Activities.Merge` | application/src/server/activity.rs:107-215 | the loops produce a merge of the queue: activities without a key, then one for each sftp key, then one for each upload key, each kind in any order |
| `Activities.KeyMeaning` | application/src/server/activity.rs:117-170 | activities are merged by event and user for the five sftp events, by user and directory for uploads, where they have a files field |
| `Activities.GroupMeaning` | application/src/server/activity.rs:117-170 | a key's group holds all its activities from the group's first one on, each less than 61000000000 nanoseconds before or after that one |
| `Activities.MergedKeepsFirst` | application/src/server/activity.rs:172-215 | a merged activity keeps everything of its first one but the files, and a single one is kept whole |
| `Activities.MergedListsInOrder` | application/src/server/activity.rs:172-215 | a merged activity lists its group's files in the order logged: all the key's files but those from before the group |
| `Activities.MergeKeepsUngrouped` | application/src/server/activity.rs:117-215 | activities without a key keep their order and come first |
| `Activities.MergeListsKeysOnce` | application/src/server/activity.rs:172-215 | each key of the queue stands at exactly one merged activity |
| `Activities.MergeFiles` | application/src/server/activity.rs:172-215 | the files reported under a key are those of its last group |
| `Activities.MergeKeepsFilesIff` | application/src/server/activity.rs:117-215 | merging invents no file, and keeps all files of a key iff everything before its last group lists none and a group of several lists its files |
| `Activities.SteadyKeysAreKept` | application/src/server/activity.rs:117-170 | where each activity lists some file, a key's files are kept iff each of its timestamps is less than 61000000000 nanoseconds before or after the first one's |
| `Activities.LateWriteLosesFirst` | application/src/server/activity.rs:124-141 | two writes 61 seconds apart: the first one's file is lost |
| `Activities.RunKeepsEverythingIff` | application/src/server/activity.rs:98-242 | over any run, sent plus queued holds the activities without a key in the order logged and no invented file, and every logged file iff each round's queue was mergeable |
| `CrashMonitor.ServerFlags.HandleExit` | application/src/server/mod.rs:218-373 | the branches do what the single steps of a task do when nobody comes in between |
| `CrashMonitor.HandledMeaning` | application/src/server/mod.rs:218-373 | a planned exit clears its flags and is no crash; any other restarts iff detection is on, no crash was handled, the code is not 0 or memory ran out or clean exits count, and the last crash lies the timeout in nanoseconds back or never was; it is clean or too soon iff just that fails; only a restart is remembered |
| `CrashMonitor.RestedCrashRestarts` | application/src/server/mod.rs:318-358 | in any interleaving a crash that looks at the last one restarts iff that lies the timeout back |
| `CrashMonitor.RunKeepsInvariant` | application/src/server/mod.rs:150-378 | with any number of tasks interleaving, the remembered crash is the last restart and finished tasks have one outcome |
| `CrashMonitor.RestartsAreSpaced` | application/src/server/mod.rs:318-358 | restarts i and j are at least j - i timeouts apart, and no task handles two exits |
| `CrashMonitor.PlannedExitIsNoCrash` | application/src/server/mod.rs:235-263 | a task that finds a restart, or a stop, under way never takes the crash path |
| `CrashMonitor.HandledCrashStaysHandled` | application/src/server/mod.rs:266-275 | until the crash flag is cleared, no task treats an exit as a crash |
| `Multipart.ViewOfName` | unrar-rs/src/archive.rs:6-9 | a name put together from base, front and match is taken apart into the same |
| `Multipart.NameOfView` | unrar-rs/src/archive.rs:419-430 | every part's name is base, front and match put together, unless only dots stand before the extensions |
| `Multipart.RenumberedTwice` | unrar-rs/src/archive.rs:196-217 | renumbering twice is renumbering once iff the numbers agree or the front does not come to match |
| `Multipart.NthPartHasNumber` | unrar-rs/src/archive.rs:196-217 | the part n is a part in the same form and width whose number is n |
| `Multipart.PartsWithRar` | unrar-rs/src/archive.rs:118-217 | the part n of `base.part01.rar`, `base.r01.rar` or `base.01.rar` has n in as many digits instead, and the glob of all has a question mark for each digit |
| `Multipart.PartsWithoutRar` | unrar-rs/src/archive.rs:118-217 | the same without `.rar` where the base has no dot; then `base.rar` and the base alone are no parts |
| `Multipart.NamedArchive` | unrar-rs/src/archive.rs:118-217 | `my.archive.rar` is no part: an extension before `.rar` that ends in no digit makes none |
| `Multipart.NthOfNthIff` | unrar-rs/src/archive.rs:196-217 | the part m of the part n is the part m iff a file name stands before the extensions and, unless m = n, no text in front comes to be taken for the number |
| `Multipart.AllPartsOfNthIff` | unrar-rs/src/archive.rs:118-137 | the glob of every part is that of the name, under the same condition |
| `Multipart.ConfusedParts` | unrar-rs/src/archive.rs:196-217 | for `a.r02x.r01`, part 3 of part 2 is not part 3 |

## Left out

- Disk paths as text: the strings are taken apart into components, so leading and doubled separators are not modelled; removal and attachment see only the empty path. Truncating the base directory itself is not an operation of the runs.
- Runs.RunKeepsIndexIff: the cached total stays below 2^63, and the releases of a run are of bytes charged before; a release runs as one step, though the code loads, compares and subtracts separately.
- WriterRuns.CallsKeepIndex: bytes not yet charged keep the cached total below 2^63, and a call of one writer runs as one step.
- `update_size_slice` and the four variants of allocation: they are the same walk and the same checks as the modelled ones.
- A rename changes the tree before the file system is asked; that a failing rename leaves the tree changed is not modelled.
- Writers.AsyncFileSystemWriter.Drop: a charge in flight counts as cancelled with the writer; the code adds to the cached total before it waits for the tree, so a cancelled charge may have raised the total alone.
- Writers: file positions are unbounded naturals, and the metadata set when a writer is dropped is not modelled.
- LineSplitter: text decoding, trimming and startup detection; the two further copies of the loop in `installation.rs` are the same.
- LineEditor.LineEditor.HandleEnter: what is written when a line is submitted, and output of the server in between, are not modelled; neither are multi-byte characters and rows narrower than the line.
- RateLimiter: times are real numbers, so the rounding of floats and the cut to nanoseconds are not modelled; `limited_writer.rs` counts writes as the reader counts reads.
- FixedCopy: a writer that fails, and the asynchronous reader, which fills its buffer by the same rule.
- JsonConfig.LookupUpdated: the document is rewritten in place on an owned tree; the model computes the new document as a value.
- JsonConfig: reading and printing the file; how a text reads as a float is a parameter. YAML files take the same path; INI, XML and plain files are not modelled.
- Properties.RewriteTwice: the laws hold for distinct, trimmed, non-empty keys that hold neither `=` nor newlines and start no comment, for values without newlines that do not end in a carriage return, and for text whose lines end in at most one carriage return before the newline; conditional replacements are included, but only unconditional ones are shown to read back.
- Activities: sending itself; a batch whose sending fails is lost, as in the code.
- CrashMonitor: power actions appear only as stores to the flags; schedules, log lines and the removal of the container after a stop.
- Multipart: digits outside ASCII, which the pattern also takes; the directory of the path, which stays as it is.
- Containers, HTTP, SSH and SFTP transport, web sockets, tokens, compression, backups, permissions and schedules.
- Mutual exclusion of power actions.
