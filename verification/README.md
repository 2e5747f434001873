# KontolOS in Dafny

A model of the parts of the KontolOS kernel that manage state, with proofs about
every call and every run. Methods follow the C functions: they update headers,
buffers, tables and cells in place, with the same loops, and are proved against
specifications whose consequences are proved as lemmas.

| file | models |
|---|---|
| `CString.dfy`, `Text.dfy` | C strings in byte buffers; texts as newline-terminated lines |
| `Blocks.dfy`, `HeapRuns.dfy` | the heap as a list of blocks: layout, canonical form, runs |
| `Heap.dfy` | the allocator over physical memory: headers are bytes in the same array as payloads |
| `NameTable.dfy`, `Ownership.dfy`, `RamFs.dfy` | the RAM file system: a map from names to files, who owns each heap block, and the table itself |
| `Editor.dfy`, `Nano.dfy` | the line editor: the flat text it edits, and its line buffers |
| `Saves.dfy`, `NanoCommand.dfy` | what saving does to heap and table; the editor command with its buffers |
| `FsLimits.dfy` | runs from start-up in which the file system or its lister falls short |
| `Shell.dfy` | the tokenizer and the file lister |
| `Keyboard.dfy` | the ring buffer under interleaved interrupts, and the line reader |
| `Vga.dfy`, `Console.dfy` | the text console as a window on unbounded paper; the line reader's echo on it |
| `Conversion.dfy` | integers to strings and back |

How to read the contracts:

- `Holds(a, off, x)` says that buffer `a` holds the NUL-terminated string `x` at
  `off`. Methods take the string as a ghost argument where C relies on it.
- The heap's abstract state is the list `blocks`; `UsedBlocks` is the set of
  blocks in use. Allocation and free are specified by that set alone, and
  `HeapRuns.Canonical` shows that it fixes the whole list.
- A file is `Bytes(content)`, or `Lost(n)` after an overwrite that ran out of
  memory: its data is gone and its size still says n.
- The editor's `Before` and `After` are the text left and right of the cursor.
  No key moves the cursor except by editing, so `After` is the text as loaded.
- Functions over whole rows of calls are folds of one step (`HeapRuns.Fold`), and
  lemmas about folds take the step as a parameter.
- Some invariants (`Valid`, `Told`, `SavedSince`) bind their clauses to a name
  (`var sound := ...; sound`): a method that only passes them on then proves one
  fact and not one for each clause.
- The console's `Paper` is a log of rows that only grows; the screen is its last
  25 rows.

Where the code differs from what its names suggest, the model follows the code:

- A failed overwrite (`fs_write` answering -3) has already freed the old data and
  leaves the size as it was: `FsWrite` says that exactly a file with data is
  changed by it, `FsLimits.LoseContents` is a run from start-up in which it happens.
- `fs_rmdir` never frees data: `FsRmdir` says exactly when a block leaks,
  `FsLimits.LeakDirectory` is a run in which one does.
- An append to a file that lost its data keeps that many arbitrary bytes in front
  (`FsAppend`, `FsLimits.AppendAfterLoss`).
- `strncpy` writes n+1 bytes for a source shorter than n; the 32-byte name field
  still holds it (`StoreName`).
- Requests above 0xFFFFFFF0 wrap in the allocator's rounding (`Heap.TotalRoom`), and
  append sizes that overflow 32 bits pass the size check (`AppendCheck`).
- A name with a newline makes the lister show other names than the table's
  (`Shell.ScanShows`, `FsLimits.ListNewline`); a table whose names overflow the 1024
  bytes is listed short of the printed total (`NameTable.ListedAll`,
  `FsLimits.ListOverflow`).
- A backspace at the left edge does not go back a row, and one after a tab goes back
  one column, so a line that is taken back can stay on the screen
  (`Console.EchoShowsLine`, `Console.EchoPrintsLine`).

## Model

| member | source | states |
|---|---|---|
| `Blocks.Ordered` | src/kernel/memory.c:29-136 | Blocks lie in address order without overlap: an earlier block ends at or before a later one starts |
| `Blocks.InRegion` | src/kernel/memory.c:10-12 | Every block lies inside the 4 MB region from 0x200000 to 0x600000 |
| `Blocks.AddressAligned` | src/kernel/memory.c:50-64 | Block addresses, hence returned pointers, are multiples of four in every list the allocator keeps |
| `Blocks.PayloadsApart` | src/kernel/memory.c:77-77 | A live payload byte belongs to one block only and to no block's header |
| `Blocks.Conservation` | src/kernel/memory.c:123-198 | Used and free bytes always add up to the heap size, so the counter never wraps |
| `Blocks.FirstFit` | src/kernel/memory.c:56-80 | The lowest-indexed free block of at least the wanted size, or none |
| `Blocks.TakeKeeps` | src/kernel/memory.c:62-77 | Allocating keeps tiling, alignment and coalescing, adds exactly one used block, new to the list, at the address of the free one, exactly the wanted size when 28 bytes or more would be left and the whole free block otherwise, and moves the byte count by its size |
| `Blocks.FreeKeeps` | src/kernel/memory.c:118-135 | Freeing removes exactly one used block and restores tiling, alignment, coalescing and the byte count whatever the neighbours are |
| `Blocks.FreeCoalesced` | src/kernel/memory.c:121-135 | After the two joins no two neighbours are both free |
| `HeapRuns.Canonical` | src/kernel/memory.c:104-136 | The block list is a function of the set of used blocks: two well-formed lists with the same used blocks are equal |
| `HeapRuns.FreeInAnyOrder` | src/kernel/memory.c:104-136 | Freeing the same pointers in any two orders gives the same list |
| `HeapRuns.FreeEverything` | src/kernel/memory.c:104-136 | Freeing every live pointer leaves the single free 4 MB block of a fresh heap |
| `HeapRuns.AllocThenFree` | src/kernel/memory.c:44-136 | An allocation followed by its free restores the exact list, split or not |
| `HeapRuns.GrantedAreNew` | src/kernel/memory.c:44-84 | After a row of allocations the granted addresses are exactly those of the blocks newly in use, and every block in use before still is |
| `HeapRuns.BorrowAndReturn` | src/kernel/shell.c:622-633 | Any number of allocations, some perhaps refused, followed by freeing what was granted, in any order, leaves exactly the list before, as the editor's line buffers do |
| `HeapRuns.BorrowUseReturn` | src/kernel/shell.c:622-799 | If other blocks are exchanged in between, as a save does with the file's block, the used blocks at the end differ by that exchange alone |
| `HeapRuns.FreedIs` | src/kernel/memory.c:104-136 | The contract of Kfree determines the new list completely |
| `HeapRuns.AllocatedIs` | src/kernel/memory.c:44-84 | The contract of Kmalloc determines the new list completely |
| `HeapRuns.RunInOneBlock` | src/kernel/memory.c:121-135 | A run of free bytes, byte by byte, always lies inside one free block |
| `HeapRuns.FirstFitComplete` | src/kernel/memory.c:56-83 | The search fails exactly when no run of free bytes anywhere in the heap is long enough |
| `HeapRuns.FirstFitIsLowest` | src/kernel/memory.c:56-77 | What first fit hands out is the front of the lowest free block of at least the wanted size, cut when 28 bytes or more are left |
| `HeapRuns.RunSurvives` | src/kernel/memory.c:56-84 | An allocation takes no more than its own size from a long run of free bytes, wherever first fit places it |
| `HeapRuns.RunGood` | src/kernel/memory.c:29-136 | Every list reached from a fresh heap by allocations and frees is tiled, aligned, coalesced and conserves bytes |
| `HeapRuns.FreedRun` | src/kernel/memory.c:118-135 | After a free every byte of the freed block is free, joined or not |
| `HeapRuns.HistoryForgotten` | src/kernel/memory.c:44-136 | Two histories that leave the same blocks in use leave the same heap, and stay equal whatever is called later |
| `Heap.TotalRoom` | src/kernel/memory.c:50-54 | The 32-bit rounding leaves room for the request if and only if the request is at most 0xFFFFFFF0; above it the block size wraps to 4 or 12 |
| `Heap.TotalIs` | src/kernel/memory.c:50-54 | In range the block size is the request rounded up to a multiple of eight, and twelve bytes |
| `Heap.FreedHasRoom` | src/kernel/memory.c:44-136 | After a free there is room for every request the freed block could hold |
| `Heap.PutWord` | src/kernel/memory.c:64-70 | A stored 32-bit field reads back from its four bytes and touches no other byte |
| `Heap.CutInPlace` | src/kernel/memory.c:62-71 | The split's stores leave the linked list of the split blocks and touch only the two headers |
| `Heap.JoinInPlace` | src/kernel/memory.c:121-135 | The join's stores leave the linked list of the joined blocks and touch only one header |
| `Heap.KernelHeap.HeaderBytes` | src/kernel/memory.c:15-19 | Every block's header in memory: size, used flag and next address at offsets 0, 4 and 8, least significant byte first |
| `Heap.KernelHeap.MemoryInit` | src/kernel/memory.c:29-39 | The linked headers describe one free block of 0x400000 bytes at 0x200000, counter zero, memory outside the heap untouched |
| `Heap.KernelHeap.Kmalloc` | src/kernel/memory.c:44-84 | NULL exactly for size 0 or when no run of free bytes is as long as the request rounded up to eights and twelve more, changing nothing; otherwise the address twelve bytes into the front of the lowest free block that fits, cut when 28 bytes or more are left, exactly that block joining the used ones, and every live payload byte unchanged |
| `Heap.KernelHeap.Kfree` | src/kernel/memory.c:104-136 | Exactly the given block leaves the used ones, the list is well formed again, live payloads unchanged; freeing NULL or a free block changes no byte, counter or list |
| `Heap.KernelHeap.Krealloc` | src/kernel/memory.c:141-174 | In place when it fits; nothing for NULL and size 0; otherwise fails leaving heap and bytes untouched exactly when there is no room, or moves to the first fit with all old payload bytes; others' bytes unchanged |
| `Heap.KernelHeap.MemoryGetFree` | src/kernel/memory.c:195-198 | The reported free memory is the sum of the free blocks' sizes |
| `Heap.Memcpy` | src/kernel/memory.c:203-213 | Copies the source bytes as they were, nothing else, when regions are disjoint or the destination is lower |
| `Heap.Memmove` | src/kernel/memory.c:251-269 | Copies the source bytes as they were whatever the overlap |
| `CString.Strlen` | src/lib/string.c:10-17 | The length of the held string: the bytes before the first zero byte |
| `CString.HoldsIff` | src/lib/string.c:10-17 | The string held at an offset is exactly the bytes up to the first NUL, so the ghost strings passed to the methods are determined by the buffer |
| `CString.LexDiffZero` | src/lib/string.c:22-29 | The comparison value is zero exactly for equal strings |
| `CString.Strcmp` | src/lib/string.c:22-29 | The signed difference of the characters at the first place where the strings part, an end counting as 0; zero exactly for equal strings |
| `CString.Strcpy` | src/lib/string.c:50-55 | The destination holds the string, bytes outside it are unchanged; source and destination may share a buffer as long as the copy does not run into its own source |
| `CString.Strncpy` | src/lib/string.c:60-70 | At most n characters; a shorter source makes it write n+1 bytes, a longer one leaves no terminator; nothing beyond is touched; one buffer will do whenever the copy does not run into what it still reads |
| `CString.Strcat` | src/lib/string.c:75-83 | The destination holds the concatenation, bytes outside the appended part are unchanged; in one buffer the source must not be a tail of the destination, which would never end |
| `Text.LinesRecovered` | src/kernel/shell.c:472-496 | Scanning joined lines finds them again exactly when none contains a newline |
| `Text.NewlineSplits` | src/kernel/shell.c:472-496 | An input on which it fails: one listed name with a newline comes back as two |
| `Text.JoinOfLines` | src/kernel/shell.c:650-664 | Joining the lines of a text gives the text with its last line terminated |
| `Text.JoinLast` | src/fs/ramfs.c:249-252 | Each listed line adds its characters and one newline, code 10 |
| `Text.FindLineEnd` | src/kernel/shell.c:475-476 | The scan stops at the first newline or at the end of the string |
| `NameTable.AddFile` | src/fs/ramfs.c:74-79 | Filling an empty slot adds exactly one entry to the map of names |
| `NameTable.RemoveFile` | src/fs/ramfs.c:99-103 | Clearing a slot removes exactly its name from the map |
| `NameTable.ChangeBody` | src/fs/ramfs.c:156-172 | Changing a file's data changes exactly its entry |
| `NameTable.FileAt` | src/fs/ramfs.c:30-39 | A used slot is the map's entry for its name |
| `NameTable.MapSize` | src/fs/ramfs.c:272-281 | The map has as many entries as the table has used slots |
| `NameTable.FullTable` | src/fs/ramfs.c:44-52 | The table is full exactly when every slot is used |
| `NameTable.ListedFits` | src/fs/ramfs.c:245-256 | Listed lines and a terminator fit the buffer, and every listed name is of a used slot |
| `NameTable.ListedIsGreedy` | src/fs/ramfs.c:245-256 | The listing is the one greedy choice, and nothing else is: the names of an increasing row of used slots, a used slot being left out exactly when its name and two bytes more would not stay below the buffer size after the lines of those chosen from lower slots |
| `NameTable.ListedAll` | src/fs/ramfs.c:245-256 | The listing has every name, in slot order, exactly when there is none or the buffer has one byte more than lines and terminator need |
| `Ownership.CounterByOwner` | src/fs/ramfs.c:87-230 | The allocator's counter is the sum over files' blocks, other clients' blocks and leaked blocks |
| `RamFs.FileSystem.FsInit` | src/fs/ramfs.c:16-25 | The empty map, no blocks held |
| `RamFs.FileSystem.FsFind` | src/fs/ramfs.c:30-39 | The slot with the name, or -1 exactly when the map lacks it |
| `RamFs.FileSystem.FsFindFree` | src/fs/ramfs.c:44-52 | The lowest empty slot, or -1 when there is none |
| `RamFs.FileSystem.StoreName` | src/fs/ramfs.c:75-76 | The name ends up terminated inside its own 32 bytes, other fields untouched |
| `RamFs.FileSystem.FsCreate` | src/fs/ramfs.c:57-82 | -1 exactly for an invalid name, -2 exactly when present, -3 exactly when absent and the map has 64 entries; otherwise the map gains the name with empty contents in the lowest empty slot |
| `RamFs.FileSystem.FsMkdir` | src/fs/ramfs.c:313-338 | The same for a directory |
| `RamFs.FileSystem.FsDelete` | src/fs/ramfs.c:87-106 | 0 exactly when the name is present; then that slot alone becomes empty, its block is freed and nothing leaks; other clients' bytes unchanged |
| `RamFs.FileSystem.FsRmdir` | src/fs/ramfs.c:343-362 | -1 when absent, -2 exactly for a plain file; otherwise exactly that slot becomes empty, and its block leaks exactly when it holds data |
| `RamFs.FileSystem.FsOpen` | src/fs/ramfs.c:111-118 | The slot with the name, NULL exactly when the map lacks it |
| `RamFs.FileSystem.FsRead` | src/fs/ramfs.c:123-141 | The slice of the contents at the offset, at most the size asked, into a buffer outside the heap or in a block of the caller's, nothing else changed; a file that lost its data reports bytes but writes none |
| `RamFs.FileSystem.FsWrite` | src/fs/ramfs.c:146-173 | Success overwrites the contents; -3 exactly when the heap without the old block has no room, which loses the contents of a file that has any and leaves the size field; -2 exactly above 65536 bytes; -1 and -2 change nothing; an overwrite that the old block could hold, or no longer than the file, never runs out; the old block is freed first, then the lowest fit taken; other slots, blocks and clients' bytes unchanged |
| `RamFs.FileSystem.FsAppend` | src/fs/ramfs.c:178-212 | Success concatenates; -3 exactly when the heap has no room while the old block is still held; every failure changes nothing; other slots, blocks and clients' bytes unchanged |
| `RamFs.FileSystem.FsTruncate` | src/fs/ramfs.c:217-230 | Empties the file and frees exactly its block, other clients' bytes unchanged |
| `RamFs.FileSystem.AppendCheck` | src/fs/ramfs.c:184-187 | The size check on the 32-bit sum is right if and only if the sum does not wrap |
| `RamFs.AppendTakes` | src/fs/ramfs.c:189-209 | An append fails exactly when no run of free bytes holds the whole new content rounded up to eights and twelve more; otherwise its block is the lowest that fits with the old one still held, and the used blocks exchange the two |
| `RamFs.FileSystem.History` | src/fs/ramfs.c:146-230 | After any history of calls on any file, failed overwrites included, its bytes are the replay of the successful ones, with exactly the lost leading bytes unknown; the answers, the file's block and the heap are functions of heap, block and size at the start; other slots unchanged |
| `RamFs.NothingUnknown` | src/fs/ramfs.c:146-230 | With no overwrite out of memory nothing is unknown: the replay is overwrite, concatenate, clear on the starting bytes |
| `RamFs.SinceOverwrite` | src/fs/ramfs.c:146-230 | After the last successful overwrite or truncate with no loss since, the file holds what the later calls made of those bytes, whatever was lost before |
| `RamFs.UsedExchange` | src/fs/ramfs.c:156-210 | A change to one file's data exchanges that file's block and no other used block |
| `RamFs.FileSystem.FsList` | src/fs/ramfs.c:235-259 | The greedy listing, which skips a name that does not fit and goes on, terminated, inside the buffer size, with its count |
| `RamFs.FileSystem.FsCount` | src/fs/ramfs.c:272-281 | The size of the map |
| `RamFs.FileSystem.FsGetSize` | src/fs/ramfs.c:286-289 | The size of the contents, 0 for a null handle |
| `RamFs.FileSystem.DataPointers` | src/fs/ramfs.c:21-27 | Non-null data pointers of distinct slots are distinct live blocks with room for their sizes |
| `RamFs.FileSystem.EntryFields` | src/fs/ramfs.c:74-79 | The table's bytes for every slot: all zero when free; flag 1, or 5 for a directory, the size, and the name terminated inside its own 32 bytes when used |
| `FsLimits.OverwriteCanLose` | src/fs/ramfs.c:156-167 | Two allocations from the fresh heap: a heap in which an overwrite of the file's block finds no room even once it is free |
| `FsLimits.LoseContents` | src/fs/ramfs.c:146-173 | The run from start-up: fs_write of 8 bytes succeeds, of 100 answers -3, and the 8 bytes are gone with the size still 8 |
| `FsLimits.AppendAfterLoss` | src/fs/ramfs.c:178-212 | The same run followed by an append of one byte, which answers 1: the file has nine bytes, eight of them never written to it |
| `FsLimits.LeakDirectory` | src/fs/ramfs.c:343-362 | The run from start-up: make a directory, write one byte, remove it; no file and no client is left and 20 bytes stay in use |
| `RamFs.FileSystem.Accounting` | src/fs/ramfs.c:87-230 | The counter splits by owner; while no directory has been written nothing leaks |
| `Editor.KeySimulates` | src/kernel/shell.c:735-784 | Every key keeps the editor's invariant, room for any merge included, never touches the text after the cursor, and acts on the text before it as a stack push or pop |
| `Editor.KeyByCode` | src/kernel/shell.c:735-783 | Each key by its code: 32 to 126 insert before the cursor on a line shorter than 79, 10 and 13 start a line while there are fewer than 100, 8 takes back the last character before the cursor, everything else and every refused key changes nothing; what follows the cursor stays |
| `Editor.SessionSimulates` | src/kernel/shell.c:670-793 | The same over every key sequence |
| `Editor.SessionByCode` | src/kernel/shell.c:711-735 | Code 24 ends a session whatever follows, 19 saves the lines joined by newlines at that point, every other key edits and saves nothing |
| `Editor.SessionOnText` | src/kernel/shell.c:640-793 | After a whole session on a loaded text the lines are the accepted keystrokes replayed, followed by the text as loaded |
| `Editor.SavesAreReplayed` | src/kernel/shell.c:670-793 | Every save of a session writes the keystrokes accepted so far, replayed as a stack, followed by the text as loaded |
| `Editor.FlatDetermines` | src/kernel/shell.c:635-637 | The flat text around the cursor determines lines and cursor |
| `Editor.BackspaceUndoes` | src/kernel/shell.c:735-784 | Backspace undoes every accepted key, Enter and its line split included |
| `Editor.RefusedKey` | src/kernel/shell.c:758-775 | A key refused at 79 characters or 100 lines changes nothing |
| `Editor.OpenedGood` | src/kernel/shell.c:649-668 | Every NUL-free text opens in a state that satisfies the invariant with nothing before the cursor |
| `Editor.OpenedLines` | src/kernel/shell.c:650-667 | Line by line, an opened text shows its first hundred lines, of each the first 79 characters, and one empty line if it has none |
| `Editor.SaveOfLoad` | src/kernel/shell.c:649-725 | Loading then saving returns a nonempty text with its last line terminated if and only if it has at most 100 lines of at most 79 characters |
| `Editor.LoadOfSave` | src/kernel/shell.c:649-725 | Saving then loading returns exactly the lines |
| `Editor.JoinSize` | src/kernel/shell.c:712-716 | The saved text is at most 8000 characters |
| `Nano.InsertAt` | src/kernel/shell.c:776-780 | The shifting loop inserts one character into the held string |
| `Nano.DeleteAt` | src/kernel/shell.c:738-741 | The shifting loop deletes one character from the held string |
| `Nano.LineEditor.MergeLines` | src/kernel/shell.c:743-755 | The merge of two lines by strcat and strcpy, always inside the 80-byte buffers, is the abstract backspace |
| `Nano.LineEditor.SplitLine` | src/kernel/shell.c:758-771 | Shifting down and splitting the buffers is the abstract Enter |
| `Nano.LineEditor.ClampCursor` | src/kernel/shell.c:786-792 | The bounds checks never move the cursor |
| `Nano.LineEditor.TypeKey` | src/kernel/shell.c:735-792 | The buffers after a key hold exactly the lines the abstract key gives |
| `Nano.LineEditor.ParseLines` | src/kernel/shell.c:649-664 | The load loop fills the buffers with the first 100 lines, each clipped to 79 characters |
| `Nano.LineEditor.Load` | src/kernel/shell.c:649-668 | The loaded buffers stand for the opened text, one empty line at least |
| `Nano.LineEditor.Save` | src/kernel/shell.c:713-724 | The strcat loop builds exactly the newline-terminated lines in the heap buffer, inside it, and touches no other client's bytes |
| `Nano.LineEditor.SaveTo` | src/kernel/shell.c:711-732 | Which answer a save gives, what it leaves of the heap and the file, as functions of both before: no room for the buffer, no such file, -3 when the heap without the old block has no room, or the text's length; afterwards there is room for another such buffer |
| `Nano.LineEditor.LoadFrom` | src/kernel/shell.c:640-668 | Opening a file loads its text up to the first NUL, or nothing exactly when the buffer finds no room; a file that lost its data loads as many arbitrary bytes; the heap is as before |
| `Nano.LineEditor.SaveAndReopen` | src/kernel/shell.c:640-732 | The answer a save gives, as a function of heap and file before it; when that is the text's length, another editor opens the file line for line as saved |
| `Nano.LineEditor.Run` | src/kernel/shell.c:670-793 | The editor loop up to Ctrl+X: the final state, and the answers, the file and the heap as functions of the heap at the start and the saved texts; only the file changes, only its block is exchanged, other clients' bytes are unchanged |
| `Saves.SaveShows` | src/kernel/shell.c:711-732 | One save changes only its file: to the text if the answer is its length, to lost if it is -3, not at all otherwise |
| `Saves.SaveByNumbers` | src/kernel/shell.c:713-732 | Which of the four endings a save has and what becomes of the file, from the free runs of the heap in bytes: a buffer for text, NUL and header, then a block for the text once the old one is free |
| `Saves.SaveAllShows` | src/kernel/shell.c:670-732 | The same of any row of saves, with one answer each |
| `NanoCommand.BorrowLines` | src/kernel/shell.c:628-633 | The hundred allocations: the heap they leave, each non-null pointer to a block of its own, and a null pointer exactly where the heap left by the earlier ones has no room for 80 bytes |
| `NanoCommand.ReturnLines` | src/kernel/shell.c:796-798 | The cleanup loop frees exactly what was borrowed |
| `NanoCommand.Edit` | src/kernel/shell.c:622-799 | The command on an open file: the session runs exactly when the heap has room for the array of pointers and then for each line, and otherwise the file is as before; everything borrowed is given back, the used blocks differ by the file's block alone, other files and clients' bytes are unchanged; the session and its saves are those of the abstract editor on the heap as borrowed from |
| `NanoCommand.CmdNano` | src/kernel/shell.c:607-804 | The same for a named file, created empty first if it is missing, its name is valid and the table has room; the session runs exactly under the same condition on the heap |
| `NanoCommand.RoomToEdit` | src/kernel/shell.c:622-633 | With 9640 free bytes in a row anywhere in the heap, however the rest is cut up, no buffer is refused |
| `NanoCommand.LinesByNumbers` | src/kernel/shell.c:622-633 | The condition for a session in bytes: a free run of 412, then before each of a hundred allocations of 92 a free run of as many |
| `Shell.TakeWord` | src/kernel/shell.c:107-115 | One word is scanned to its end and terminated over the separator after it |
| `Shell.WordIs` | src/kernel/shell.c:96-108 | A word is a nonempty run without the codes 32 and 9, with one of them or the end of the line on either side |
| `Shell.ParseArgs` | src/kernel/shell.c:89-119 | The arguments are in order exactly the first words of the line, each readable as a NUL-terminated string, only separators overwritten |
| `Shell.LsScan` | src/kernel/shell.c:472-497 | The scan yields the lines of the listing, opens each, and restores the buffer |
| `FsLimits.ListNewline` | src/kernel/shell.c:452-505 | An input on which it fails: the only file has a newline in its name, two names are shown and neither opens |
| `FsLimits.ListOverflow` | src/kernel/shell.c:452-505 | A full table of 31-character names: the total says 64 and fewer names are shown |
| `Shell.ScanShows` | src/kernel/shell.c:452-505 | The names shown are the listed ones exactly when none of these has a newline; then each opens its own slot, and they are as many as the printed total exactly when every name fits the 1024 bytes |
| `Shell.Ls` | src/kernel/shell.c:452-505 | The same of the command, for any table |
| `Keyboard.RunConserves` | src/drivers/keyboard.c:71-192 | Under every interleaving delivered plus pending characters are the accepted ones in order, at most 255 pending |
| `Keyboard.BurstKept` | src/drivers/keyboard.c:71-78 | As long as pending and typed characters are fewer than 256 none is dropped, whatever the interleaving |
| `Keyboard.TakesPending` | src/drivers/keyboard.c:175-190 | From any point of the reader a pending character is taken, the oldest first, by a fixed number of its own steps, whatever interrupts come between |
| `Keyboard.FourStepsTake` | src/drivers/keyboard.c:175-190 | From its test the reader has it after exactly four steps |
| `Keyboard.BetweenPut` | src/drivers/keyboard.c:73-76 | Storing and advancing the end index appends to the ring's contents, across the wrap |
| `Keyboard.RingBuffer.BufferPut` | src/drivers/keyboard.c:71-78 | The store appends to the queue, and drops exactly when 255 characters are pending |
| `Keyboard.RingBuffer.ConsumerStep` | src/drivers/keyboard.c:180-192 | Each separate read or write of the reader is a step of the queue, safe under interrupts before and after it |
| `Keyboard.RingBuffer.Getchar` | src/drivers/keyboard.c:180-192 | Whatever interrupts come between its steps: with a key pending at the call the oldest is returned after exactly four of them, and otherwise one character is taken or the reader still waits |
| `Keyboard.RingBuffer.GetcharNonblock` | src/drivers/keyboard.c:197-207 | With a key pending the oldest is returned, without one 0 or a key that came in time; answered within four steps of its own |
| `Keyboard.RingBuffer.Interleave` | src/drivers/keyboard.c:71-192 | Any interleaving of the two refines the queue and conserves characters |
| `Keyboard.Readline` | src/drivers/keyboard.c:212-235 | With interrupts at any points, the keystrokes taken are a prefix of those pending and accepted, the rest still pending: up to the first newline or a full line; waiting in vain only once the keys pending at the call are used up or fewer than four steps were left for the next; the line is their replay as a stack, terminated inside the limit, and exactly their echo is printed, with the newline that ends it |
| `Keyboard.EchoReplays` | src/drivers/keyboard.c:216-229 | The echo replays to the line read and never backs past its start |
| `Keyboard.ErasedRules` | src/drivers/keyboard.c:216-229 | Three rules that settle every line: code 8 cancels the character before it, does nothing at the start of the line, and everything else stays |
| `Console.EchoDrifts` | src/drivers/keyboard.c:216-229 | Printing the echo never leaves the cursor short of the line's end, and leaves it there exactly when no erasing backspace comes at the left edge |
| `Console.EchoShowsLine` | src/drivers/keyboard.c:212-235 | The echo leaves exactly the line read on the screen if and only if no erasing backspace comes at the left edge after a wrap |
| `Console.ShortIsRetraceable` | src/drivers/keyboard.c:212-235 | That holds of every line that stays short of the right edge |
| `Console.EchoPrintsLine` | src/drivers/keyboard.c:212-235 | Tabs included, on a screen blank from the cursor on: after every keystroke the paper is what printing the line read so far would give, if and only if every erasing backspace takes back the column its character took |
| `Console.TabStays` | src/drivers/vga.c:98-113 | An input on which it fails: a tab at the left edge is read back and erased, and the cursor stays in column three |
| `Console.WrappedLineStays` | src/drivers/vga.c:107-113 | An input on which it fails: a character in the last column is read back and erased, and stays on the screen |
| `Vga.PutKeeps` | src/drivers/vga.c:98-133 | Printing keeps the cursor on the screen, never changes a row above the window, and adds at most one blank row, only from the last row |
| `Vga.HistoryKept` | src/drivers/vga.c:98-143 | Over any text the rows above the window stay as they were |
| `Vga.PlainPut` | src/drivers/vga.c:115-130 | One plain character changes exactly the cell under the cursor and moves on by one, across wraps and scrolls |
| `Vga.PlainText` | src/drivers/vga.c:98-143 | A plain text is laid on the paper from the cursor on, one cell a character |
| `Vga.PutByCode` | src/drivers/vga.c:98-133 | Each character by its code: 10 moves to the start of the next row, 13 to the start of its own, 9 to the next column divisible by four, 8 blanks the cell before the cursor in its row, any other fills the cell under it with its code and colour; no other cell changes, added rows are blank |
| `Vga.TwoLines` | src/drivers/vga.c:98-143 | Two plain texts with a newline between: the first stands from the cursor on, the second from the start of the row after the first one's end, across wraps and scrolls |
| `Vga.PutAllMore` | src/drivers/vga.c:138-143 | A text is printed character by character, none left out |
| `Vga.Screen.VgaClear` | src/drivers/vga.c:51-62 | The screen shows 25 blank rows in the current colour, cursor at the start |
| `Vga.Screen.SetColor` | src/drivers/vga.c:67-70 | Only the current colour changes; what is on the paper keeps its own |
| `Vga.Screen.ScrollCells` | src/drivers/vga.c:75-91 | Every row moves up by one and the last is blank in the current colour |
| `Vga.Screen.VgaPutchar` | src/drivers/vga.c:98-133 | The cells after a character are the last 25 rows of the paper after it |
| `Vga.Screen.VgaPrint` | src/drivers/vga.c:138-143 | The same for a string |
| `Vga.Screen.VgaSetCursor` | src/drivers/vga.c:229-236 | The cursor moves within the window; positions off the screen are ignored |
| `Conversion.DigitsCanonical` | src/lib/string.c:160-179 | The digits of a number denote it, are digits of the base, and have no leading zero unless it is 0 |
| `Conversion.CanonicalUnique` | src/lib/string.c:160-179 | Such a digit string is unique |
| `Conversion.DigitNames` | src/lib/string.c:162-166 | The digits are 0 to 9 and then a to z in order, and no character stands for two |
| `Conversion.PrintedDenotes` | src/lib/string.c:145-182 | What is printed denotes the value: after a minus in base 10, modulo 2^32 in other bases, without a leading zero |
| `Conversion.EmitDigits` | src/lib/string.c:160-166 | The emit loop leaves the digits least significant first |
| `Conversion.ReverseInPlace` | src/lib/string.c:170-179 | The swapping loop reverses the range and nothing else |
| `Conversion.Itoa` | src/lib/string.c:145-182 | The buffer holds the sign and the digits of the value in the base |
| `Conversion.ReadDigits` | src/lib/string.c:205-209 | The digit loop reads the value of the leading digits without overflow when the result does not overflow |
| `Conversion.DecimalByCode` | src/lib/string.c:187-212 | Blanks and tabs, a plus, a minus or neither, digits, and anything after them: the value of the digits, negated exactly after a minus |
| `Conversion.Atoi` | src/lib/string.c:187-212 | The number after blanks and a sign, ignoring what follows the digits |
| `Conversion.RoundTrip` | src/lib/string.c:145-212 | Reading back a printed decimal gives the number |
| `Conversion.PrintAndRead` | src/lib/string.c:145-212 | The same through a twelve-byte buffer, for every int above the smallest |

## Left out

- Kmalloc: sizes above 0xFFFFFFF0 are excluded by a precondition, because the wrapped block would be shorter than its own header or payload; `Heap.TotalRoom` shows this is exactly where the arithmetic fails.
- Krealloc: the same sizes, which it passes on.
- Itoa: the smallest 32-bit integer in base 10, whose negation overflows.
- Atoi: digit strings whose value overflows a signed 32-bit integer.
- FsAppend: sizes whose sum with the file's size wraps 32 bits, where the copy would run over its new block; `AppendCheck` shows this is exactly where the size check fails.
- FsCreate: a name that is itself a name field of the table; likewise FsMkdir.
- FsWrite: source bytes in another file's block, and for FsAppend in the file's own, which the code copies correctly.
- FsRead: a buffer inside the heap has to lie in one block of the caller's own, as the source of `FsWrite` and `FsAppend` does; a buffer that runs out of its block would overwrite headers.
- Readline: a `max_length` of 0, where `max_length - 1` wraps; the interleaving is a given sequence of events, and running out of it is modelled as still waiting.
- Edit: the blocks of the line buffers are borrowed from the heap and given back, but their characters are kept in arrays of their own; the buffers for loading and saving are the heap's bytes. With one of the hundred missing, only the borrowing and returning is modelled.
- EchoPrintsLine: screens with text at or after the cursor, whose cells an erasing backspace blanks.
- EchoDrifts: tabs in a typed line, which move the cursor by up to eight columns, and carriage returns.
- EchoShowsLine: tabs in a typed line, which `EchoPrintsLine` covers on a blank screen; carriage returns, which no key gives.
- ConsumerStep: halting and waking up; a waiting reader simply tests again.
- VgaPutchar: the hardware cursor registers written after each character.
- Stale file handles: operations take the slot of a file in use.
- The table's fields are kept as two arrays, one of name fields 32 bytes apart and one of the remaining fields, instead of one array of structs.
- Boot code, interrupt and timer setup, scan code tables and other shell commands: hardware access and finite tables.
- Current directory tracking: the name space is flat and no operation depends on it.
- kcalloc, memset, memcmp, strchr, strrchr, strncmp, strstr and the character classifiers: easy members.
