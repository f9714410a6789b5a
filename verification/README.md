# Model and proofs of nav's core

nav is a terminal file manager. This project models the data structures and protocols beneath it and
proves what they are for. Code that relinks or overwrites in place is modelled by classes and methods with the same
fields and branches; each method is proved against a function or a relation on values, and the properties of
whole runs are proved about those. `dafny verify dfyconfig.toml` goes over the whole project.

| component | source | files |
|---|---|---|
| crit-bit map | `lib/map.c` | `KeyBytes`, `Trie`, `TrieTheory` (values), `CritBitMap` (nodes and slots) |
| terminal | `vt/vt.c` | `Scrollback`, `ScreenBuffer` (rows, ring, resize, marks), `CsiParams`, `ControlEffects` (relations), `TerminalPane`, `Terminal` (interpreter) |
| colour pairs | `vt/vt.c` | `ColorPairs` |
| hash table | `lib/uthash.h` | `Bits`, `MergeSort` (values), `HashSort`, `HashTable` (buckets and lists) |
| record table | `table.c` | `Tables` |
| removal | `event/ftw.c`, `event/file.c` | `FileTree` (values), `RemoveTree` |
| child processes | `event/process.c`, `stream.c`, `wstream.c`, `uv_process.c` | `ProcessTeardown` |
| ring buffer | `rbuffer.c`, `rbuffer.h`, `event/rstream.c` | `RingBuffer` |
| layout | `tui/layout.c` | `LayoutTree`, `LayoutRects`, `LayoutPlaces` (values), `LayoutLinks`, `Layout` (containers) |

What happens outside (system calls, libuv, ncurses, the character tables) is a parameter or a nondeterministic
choice of the method that needs it. Allocation succeeds.

## Model

| member | source | states |
|---|---|---|
| `KeyBytes.FirstDifferingByte` | src/nav/lib/map.c:111-119 | either the keys are equal, or the result is the first byte, terminator included, where they differ |
| `KeyBytes.TopDifferingBit` | src/nav/lib/map.c:121-124 | the highest bit where two bytes differ: all bits above it are equal |
| `KeyBytes.OrderByFirstDifference` | src/nav/lib/map.c:217-233 | at the first differing bit, the key without the bit is the smaller one in byte order |
| `Trie.WalkFinds` | src/nav/lib/map.c:35-62 | the walk by the key's bits ends in a leaf, and the key is present exactly when it is that leaf's key |
| `Trie.InsertWellFormed` | src/nav/lib/map.c:111-163 | given the first difference with the key the walk found: the key was absent, and inserting it above the first fork that lies past the difference keeps the trie well formed (positions grow downwards, keys below a fork agree before it and split at it) |
| `Trie.InsertContents` | src/nav/lib/map.c:111-163 | inserting an absent key adds exactly that entry |
| `Trie.RemoveWellFormed` | src/nav/lib/map.c:165-215 | raising the sibling removes exactly the entry and keeps the trie well formed and as deep as it was |
| `TrieTheory.Canonical` | src/nav/lib/map.c:81-215 | two well-formed tries that stand for the same map are the same trie |
| `TrieTheory.AnyOrderSameTree` | src/nav/lib/map.c:81-163 | puts of the same entries in any order, repeated or not, build the same trie |
| `TrieTheory.PutThenDeleteRestores` | src/nav/lib/map.c:81-215 | deleting the key that was just put gives back the very trie there was before |
| `TrieTheory.InOrderListsEntries` | src/nav/lib/map.c:217-233 | the order of the walk is strictly increasing by unsigned bytes, and lists exactly the entries of the map (for the stop see `CritBitMap.Map.Iterate`) |
| `TrieTheory.PrefixTopExact` | src/nav/lib/map.c:235-267 | the walk by the prefix ends in a leaf; that leaf has the prefix exactly when some key does, and then the subtree settled on holds exactly the keys with the prefix |
| `CritBitMap.Map.Get` | src/nav/lib/map.c:53-62 | lookup in the finite map |
| `CritBitMap.Map.Put` | src/nav/lib/map.c:81-163 | refuses null and a present key, with their error codes and without changing the tree; otherwise adds the entry; the tree in the heap stays well formed |
| `CritBitMap.Map.Delete` | src/nav/lib/map.c:165-215 | removes the entry and returns its value, or reports that there is none; the last value deleted stays in the slot |
| `CritBitMap.Map.Iterate` | src/nav/lib/map.c:217-233 | the calls made: the first entries in the order of keys, each with the data that the one before returned; all but the last were accepted, and either the last one was refused or the entries are all there are |
| `CritBitMap.Map.Prefix` | src/nav/lib/map.c:235-267 | returns the slot in the tree whose subtree stands for exactly the extensions of the prefix, or an empty map |
| `CritBitMap.Map.Contains` | src/nav/lib/map.c:76-79 | whether some key has the prefix |
| `CritBitMap.Map.ClosestValue` | src/nav/lib/map.c:64-74 | on a map with entries: the value of the key itself, else of the only extension, else nothing; the error says exactly whether there is no extension; on an empty map, whatever the slot holds |
| `CritBitMap.Map.CopyFrom` | src/nav/lib/map.c:288-308 | the entries of the other map replace those under the same keys, and the other map is unchanged |
| `CritBitMap.Map.Clear` | src/nav/lib/map.c:269-286 | the map is empty, and holds no old value |
| `CritBitMap.Replay` | src/nav/lib/map.c:81-308 | over any run of puts, deletes, copies and clears the tree stands for the finite map that the run describes |
| `CritBitMap.ClosestOnEmptiedMap` | src/nav/lib/map.c:64-74 | after a put and a delete, `map_closest` answers any prefix with the deleted value, and reports that there is no entry |
| `Scrollback.ScrollCompose` | src/nav/vt/vt.c:326-369 | scrolling by a and then by b, of any signs, is scrolling by a + b, also past the region's height and the ring's size |
| `Scrollback.ScrollBack` | src/nav/vt/vt.c:326-369 | scrolling back restores the region, the ring and its index |
| `Scrollback.ScrollPermutes` | src/nav/vt/vt.c:326-369 | rows are only exchanged between region and ring: none is lost or doubled |
| `Scrollback.ScrollKeepsHistory` | src/nav/vt/vt.c:1563-1584 | a scroll within the history moves the view and leaves the history as it is |
| `Scrollback.UpAppends` | src/nav/vt/vt.c:326-369 | past the last line a scroll by one appends a row, and the oldest one is dropped only when the ring is full |
| `ScreenBuffer.RowRoll` | src/nav/vt/vt.c:279-295 | the rows of the range are rotated by the count, of either sign, and all others stay; a rotation that moves rows marks the whole range for drawing |
| `ScreenBuffer.Buffer.Scroll` | src/nav/vt/vt.c:326-369 | region, ring and index are those of so many single steps, through the recursion by screenfuls; rows outside the region stay; the whole region is marked for drawing, but a scroll up by whole screenfuls only exchanges rows with the ring and marks none |
| `ScreenBuffer.ScrollIsMarked` | src/nav/vt/vt.c:326-369 | so after any scroll but such a one every row that is not as it was is marked |
| `ScreenBuffer.Buffer.VtScroll` | src/nav/vt/vt.c:1563-1577 | the view moves as far as there is history, and the history is unchanged |
| `ScreenBuffer.Buffer.PutBackUnmarked` | src/nav/vt/vt.c:1563-1584 | a view put back by whole screenfuls, with all rows drawn before: other lines show, and none is marked |
| `ScreenBuffer.Buffer.OtherRowShows` | src/nav/vt/vt.c:1563-1584 | one row with a different one behind it is such a view |
| `ScreenBuffer.Buffer.ScrollAround` | src/nav/vt/vt.c:1563-1584 | any run of view scrolls followed by `vt_noscroll` restores screen, ring, index and counts |
| `ScreenBuffer.Buffer.RowNext` | src/nav/vt/vt.c:495-516 | from the k-th row of the history to the k+1-st, across the ring's wrap and the viewport, and from the last one to none |
| `ScreenBuffer.Buffer.RowPrev` | src/nav/vt/vt.c:518-539 | the inverse: from the k-th row to the k-1-st, and from the first one to none |
| `ScreenBuffer.Buffer.RowOrderExact` | src/nav/vt/vt.c:453-539 | the rows of the order are different rows |
| `ScreenBuffer.Buffer.RowOrderLogical` | src/nav/vt/vt.c:453-539 | with a full-screen region they hold the logical history line by line |
| `ScreenBuffer.Buffer.Enumerate` | src/nav/vt/vt.c:453-516 | `row_first` and repeated `row_next` visit exactly the rows of the order |
| `ScreenBuffer.Buffer.LineDown` | src/nav/vt/vt.c:557-570 | inside the region only the cursor moves; at the bottom the view is put back, the region scrolls by one, and with a full-screen region the history has gained one blank row and lost the oldest one only if it was full; every row that changes is marked for drawing |
| `ScreenBuffer.Buffer.FeedLines` | src/nav/vt/vt.c:557-570 | after any run of line feeds on the bottom row exactly the most recent rows, as many as screen and ring hold, are there |
| `ScreenBuffer.Buffer.VtResize` | src/nav/vt/vt.c:371-438 | from any view: by how many lines the region is lifted and how many are filled back from the scrollback; in between, each row of the screen and of the ring keeps its cells at every column below the old width, is blank from there on if the screen was never so wide, and is the old row if it was, and new rows are blank in the pen; where the cursor is and how much history is above; the line of the cursor is under it again if `KeepsLine`, and not if another one cannot be mistaken for it and `KeepsLine` fails; new rows are marked for drawing, all rows are when the width changes, and the others as by a scroll |
| `ScreenBuffer.Buffer.CursorLine` | src/nav/vt/vt.c:371-438 | both directions of this about the specification of the resize |
| `ScreenBuffer.Buffer.LostBelowRegion` | src/nav/vt/vt.c:376-383 | three rows, the region in two of them, the cursor in the third: made two rows high, the cursor's line is gone |
| `ScreenBuffer.Buffer.ShrinkAndGrow` | src/nav/vt/vt.c:371-438 | with a full-screen region and the cursor on the last row, from any view: shrinking and growing back restores the cursor and every line that the screen shows when the view is put back |
| `CsiParams.ScannedExactly` | src/nav/vt/vt.c:1000-1015 | section 5.4.2 of ECMA-48 has no parameters in a text without digits and separators, and otherwise one for each field, an empty one being 0; the scanner reads the same if and only if there are none, or the first field has a digit and there are at most 16 |
| `CsiParams.EmptyFirstFieldIsLost` | src/nav/vt/vt.c:1003-1012 | `;5` is read as the one parameter 5, not as 0 and 5 |
| `ControlEffects.DeleteUndoesInsert` | src/nav/vt/vt.c:830-861 | DCH after ICH of the same count loses exactly the cells pushed over the right margin |
| `ControlEffects.DeleteUndoesInsertLines` | src/nav/vt/vt.c:862-893 | DL after IL of the same count loses exactly the lines pushed out of the region |
| `ControlEffects.ColoredAppend` | src/nav/vt/vt.c:627-720 | SGR with two parameter lists in a row is SGR with both, unless the first one ends within an extended colour |
| `ControlEffects.OverrunByCsi` | src/nav/vt/vt.c:723-1108 | a control sequence writes past the end of a row or of the tab stops exactly when it is ED 1, EL 1 or TBC 0 and the cursor is past a row of full width |
| `ControlEffects.OverrunByEscape` | src/nav/vt/vt.c:1174-1253 | of the other escape sequences it is HTS alone, in the same state |
| `ControlEffects.NoOverrun` | src/nav/vt/vt.c:1275-1399 | printing and control characters stay in bounds in every state |
| `TerminalPane.Pane.EraseDisplay` | src/nav/vt/vt.c:723-750 | which cells ED blanks, in default colours, for every mode; all others stay, and what was saved for DECRC is overwritten |
| `TerminalPane.Pane.EraseLine` | src/nav/vt/vt.c:814-828 | which cells of the line EL blanks, in the current colours, for every mode |
| `TerminalPane.Pane.InsertLines` | src/nav/vt/vt.c:862-877 | where each row is after IL: pushed towards the bottom of the region, with blank ones at the cursor |
| `TerminalPane.Pane.DeleteLines` | src/nav/vt/vt.c:878-893 | where each row is after DL |
| `TerminalPane.Pane.PutTab` | src/nav/vt/vt.c:1255-1273 | the cursor is at the count-th tab stop in the direction of the count, or at the margin |
| `TerminalPane.Pane.Print` | src/nav/vt/vt.c:1366-1399 | the wrap before a character that does not fit, the shift in insert mode, the cells written, and the blank that a wide character leaves in the last column |
| `TerminalPane.Pane.PrintLines` | src/nav/vt/vt.c:557-570 | any run of lines of text with CR and LF on the bottom row, from any view: the history is exactly the most recent rows, as many as screen and ring hold, of the old history, with the first line written into its place, and of the lines printed since |
| `TerminalPane.Pane.ScrollView` | src/nav/vt/vt.c:1563-1577 | SU and SD move the view and keep the history |
| `TerminalPane.Pane.Csi` | src/nav/vt/vt.c:1019-1107 | every control sequence on one screen has its effect, and the screen stays valid: region, cursor and history within their bounds |
| `TerminalPane.FullLineAndTabStop` | src/nav/vt/vt.c:1231-1233 | a line of full width and then HTS: the tab stop is set past the end of the array |
| `Terminal.Vt.ParseParams` | src/nav/vt/vt.c:991-1015 | the parameters read are those of the scanner; control characters among them act one after the other where they stand, up to the place where there are too many parameters |
| `Terminal.Vt.PrivateMode` | src/nav/vt/vt.c:955-989 | for every private mode: the flag it sets, which screen becomes active, which one is cleared and whose cursor is saved or restored; everything else stays |
| `Terminal.PrivateFlags` | src/nav/vt/vt.c:955-989 | a list of private modes: after 47, 1047 or 1049 the alternate screen is active if and only if they are set; each flag has the value of the parameter that names it, and is as before if none does |
| `Terminal.PrivateCells` | src/nav/vt/vt.c:967-983 | it changes no cell, but a reset of 47, 1047 or 1049 blanks every visible cell of the alternate screen |
| `Terminal.PrivateCursors` | src/nav/vt/vt.c:967-983 | whose cursor is saved or restored: each screen keeps its cursor and what it had saved unless 1048 comes while it is active, or 1049 as it becomes so, and then the last of these counts, in the origin mode of that moment |
| `Terminal.Vt.PutChar` | src/nav/vt/vt.c:1344-1399 | one step of the terminal, for any character in any state: both screens, all modes, character sets, events, what is saved, and the sequence that is being collected are afterwards what the step relation says, and the screens and the escape buffer stay valid |
| `Terminal.StepKept` | src/nav/vt/vt.c:1344-1399 | what every step keeps: the attributes are saved exactly by the characters that complete DECSC, DECALN or ED; nothing is written out of bounds unless the character found the cursor past its row; with the alternate screen active before and after, the normal one is untouched |
| `Terminal.Vt.Sequence` | src/nav/vt/vt.c:1174-1253 | ESC and any complete sequence, fed one by one, has the effect of the sequence: the one-character ones, DECALN, the choice of G0 or G1, operating system commands, and control sequences with or without control characters in them |
| `Terminal.Vt.ControlSequence` | src/nav/vt/vt.c:991-1108 | ESC, `[`, any parameters and any final character, fed one by one: the parameters are those of the scanner; h and l set and reset insert mode if 4 is among them, n with the one parameter 6 reports the row and column, every other one has its effect on the active screen, and nothing else changes |
| `Terminal.Vt.PrivateSequence` | src/nav/vt/vt.c:1017-1023 | ESC, `[?`, any parameters, and h to set these modes or l to reset them, fed one by one |
| `Terminal.Vt.Feed` | src/nav/vt/vt.c:1401-1441 | any stream of characters is a run of such steps, and the screens and the escape buffer stay valid |
| `Terminal.NormalUntouched` | src/nav/vt/vt.c:1401-1441 | over any run: as long as the alternate screen is active, the normal one and its history are untouched |
| `Terminal.AllInBounds` | src/nav/vt/vt.c:1401-1441 | over any run: as long as no character finds the cursor past its row, nothing is written out of bounds |
| `Terminal.SavedLast` | src/nav/vt/vt.c:587-603 | over any run: what is saved for DECRC, on each screen, is what the stream saved last |
| `Terminal.Vt.SaveAndRestore` | src/nav/vt/vt.c:587-603 | DECSC, any stream, DECRC: the pen is the one that was saved last on this screen and the character set the one saved last on any, by the DECSC or by what has erased the display since |
| `Terminal.PenComesBack` | src/nav/vt/vt.c:723-750 | so the pen comes back if and only if the last such erasure on this screen, if there was one, was made with the same pen |
| `Terminal.SavedPenLost` | src/nav/vt/vt.c:728-748 | DECSC, bold, ED and DECRC: the pen is bold |
| `Terminal.Vt.Session` | src/nav/vt/vt.c:955-989 | 1049 set, any stream that stays on the alternate screen, 1049 reset, all fed as characters: the normal screen and its history are as before, and its cursor is where it was saved last |
| `Terminal.Vt.CursorSurvives` | src/nav/vt/vt.c:541-585 | when such a session leaves no trace: exactly if the saved cursor, clamped, is the cursor |
| `Terminal.CursorLost` | src/nav/vt/vt.c:968-983 | a cursor in the second row that was never saved is in the first row after a session |
| `ColorPairs.HashInjective` | src/nav/vt/vt.c:1753-1760 | different colours in range have different indices |
| `ColorPairs.Cache.Search` | src/nav/vt/vt.c:1781-1794 | any number of turns of the loop, in any state and for a table of any size: it settles on the first pair in turn that is not pinned; after more than twice as many turns as the cache may use pairs it has settled if and only if there is one; it goes by colours never set exactly when it leaves the table at once |
| `ColorPairs.Cache.SearchEnds` | src/nav/vt/vt.c:1781-1794 | the search ends if and only if a pair in its turn can be evicted: one behind the reserved ones that the cache may use or, if these take up all of them, the next one of the table |
| `ColorPairs.Cache.ResolvedByCases` | src/nav/vt/vt.c:1764-1774 | each of the two colours that a pair is handed out for: one that the terminal has stays, for one that it does not have the view's own default is taken, and where none is set the terminal's default, the view's own or the initial one, in this order of precedence |
| `ColorPairs.Cache.ReservedByCases` | src/nav/vt/vt.c:1801-1808 | the same for a reserved pair, where the view has no say |
| `ColorPairs.Cache.NoRoomLeft` | src/nav/vt/vt.c:1781-1794 | once colours (0,0) are pinned it ends exactly when one of these pairs was handed out before |
| `ColorPairs.Cache.RoomAtStart` | src/nav/vt/vt.c:1800-1839 | before the first pair is handed out it ends exactly when the table has a pair left and (0,0) are not pinned |
| `ColorPairs.Cache.Get` | src/nav/vt/vt.c:1762-1798 | the pair handed out holds the colours asked for, cache and pair table agree afterwards and no reserved pair changes; exactly when the search goes on without end, goes by colours never set, or the colours are none of the terminal's |
| `ColorPairs.Cache.Reserve` | src/nav/vt/vt.c:1800-1817 | the pair is pinned to its colours; before the first pair is handed out this keeps the agreement, and later it does if and only if the pair taken held these colours or the cache did not name it |
| `ColorPairs.Cache.StartAndRun` | src/nav/vt/vt.c:1762-1839 | reservations that leave a pair of the table and do not name (0,0), then any run of colours asked for: every search ends, the agreement holds, and every reserved pair keeps its colours |
| `ColorPairs.BlackReserved` | src/nav/vt/vt.c:1800-1817 | reserving (0,0) at the start: no step of the search ever settles |
| `ColorPairs.TableReserved` | src/nav/vt/vt.c:1781-1794 | a table of one pair, which white on black takes: the search is endless |
| `ColorPairs.TableEmpty` | src/nav/vt/vt.c:1781-1786 | a table without pairs: the search goes by colours never set |
| `ColorPairs.PastLimit` | src/nav/vt/vt.c:1782-1783 | a table of more pairs than the cache may use, all of those reserved: the pair handed out is past the limit |
| `ColorPairs.LateReservation` | src/nav/vt/vt.c:1800-1817 | a reservation after a pair was handed out: the cache names this pair for colours that it no longer holds |
| `Bits.CeilByBits` | src/nav/lib/uthash.h:690-692 | shift and mask give the quotient rounded up |
| `HashTable.IdealIsCeil` | src/nav/lib/uthash.h:690-692 | the ideal chain length is the number of items over the new number of buckets, rounded up |
| `HashTable.Hash.ExpandBuckets` | src/nav/lib/uthash.h:680-726 | doubling keeps every item, each in the bucket of its hash; counts, the expansion marks, the number of items over the ideal length and the verdict to stop expanding are what they stand for |
| `HashTable.Hash.Add` | src/nav/lib/uthash.h:182-205 | a fresh key enters the map and the end of the order; the number of buckets is a power of 2, the bucket counts are the chain lengths |
| `HashTable.Hash.Find` | src/nav/lib/uthash.h:103-114 | lookup in the finite map of the items |
| `HashTable.Hash.Delete` | src/nav/lib/uthash.h:224-257 | exactly this item leaves the map and the order, and the others keep theirs |
| `HashTable.Hash.SortItems` | src/nav/lib/uthash.h:733-818 | the order is sorted and stable for a total preorder, a permutation for any function; links, head and tail agree, and chains and map are unchanged |
| `HashSort.HashSrt` | src/nav/lib/uthash.h:733-818 | relinking in place, the passes over runs of doubled length compute the bottom-up merge sort, with consistent next, prev, head and tail |
| `MergeSort.SortCorrect` | src/nav/lib/uthash.h:733-818 | bottom-up merge sort gives a sorted permutation in which elements that compare equal keep their order |
| `Tables.Table.Insert` | src/nav/table.c:426-455 | the record becomes the newest live one and holds what was given for each field; in every indexed field the rings hold exactly the live records by value in order of insertion, and each count is the ring's length |
| `Tables.Table.RecFld` | src/nav/table.c:206-222 | on every record of a table, after any run of operations: exactly what was inserted for the field, indexed or not, and nothing for a field that the table does not have |
| `Tables.Table.DelRec` | src/nav/table.c:490-525 | exactly this record goes, from every ring, and the walk goes on at the head of its ring |
| `Tables.Table.DelVal` | src/nav/table.c:292-316 | exactly the records with this value go, the others keep their order and every index fits them; what every listener holds afterwards |
| `Tables.Table.AddListener` | src/nav/table.c:318-347 | a new listener takes the oldest record with its value, or none; the others are unchanged |
| `Tables.TblVal.Pop` | src/nav/table.c:475-488 | one entry leaves the circular ring, also at its head |
| `Tables.InsertedBound` | src/nav/table.c:410-455 | inserting a record leaves every listener with a live record of its value exactly when one exists |
| `Tables.DeletedBound` | src/nav/table.c:292-316 | deleting by a value leaves the listeners of a field bound if and only if it is the field deleted by, or no listener held a deleted record while others with its value stay |
| `Tables.DeletedRecordKept` | src/nav/table.c:490-525 | two records with which that fails |
| `Tables.Table.Apply` | src/nav/table.c:292-455 | one operation: the rows left; the listeners of a field are those there were and the new one; and if they were bound, they are afterwards if and only if the operation is harmless to them |
| `Tables.Table.Run` | src/nav/table.c:292-455 | any run of inserts, deletions and new listeners: the rows left are exactly those inserted and not deleted since, in order; the listeners of a field are bound as long as every operation was harmless to them, and all are if records are deleted by this field only |
| `FileTree.PostRemoves` | src/nav/event/file.c:66-81 | in postorder every single removal of a tree succeeds, and exactly the tree is gone |
| `FileTree.EachOnceParentsLast` | src/nav/event/file.c:66-81 | where every removal succeeds, no path is removed twice and none after a directory above it |
| `RemoveTree.Ftw.Start` | src/nav/event/ftw.c:33-132 | the walk queues one item for each entry, parents first, each counting its children |
| `RemoveTree.Remover.Remove` | src/nav/event/file.c:66-119 | the queue in preorder and the counts make the removals happen in postorder; the queue ends empty and every item is freed |
| `RemoveTree.RemoveEntry` | src/nav/event/ftw.c:33-132 | walk and removal together: exactly the tree is gone, every call succeeds, no entry is removed twice and none before what is beneath it, and the items freed are those made |
| `ProcessTeardown.Stream.WriteDone` | src/nav/event/wstream.c:119-140 | the last completion of a closed stream closes its handle; a handle is being closed exactly when its stream is closed and nothing is pending |
| `ProcessTeardown.Stream.MemoryReturned` | src/nav/event/wstream.c:63-140 | with nothing pending, all memory is accounted as free exactly when the system refused no write of any size |
| `ProcessTeardown.RefusedWrite` | src/nav/event/wstream.c:63-95 | a write for which it is not |
| `ProcessTeardown.Process.AnnouncedAfterAll` | src/nav/event/process.c:183-200 | an announced process has exited, and all its handles were closed, none under a write |
| `ProcessTeardown.Loop.Spawn` | src/nav/event/process.c:30-96 | a new process joins with a count of its open handles, or nothing changes |
| `ProcessTeardown.Loop.Exit` | src/nav/event/process.c:222-237 | at any time: the invariant of all processes stays, and one event that closes the handles is queued |
| `ProcessTeardown.Loop.Stop` | src/nav/event/process.c:125-147 | at any time: the first request takes the time and closes the pipe to the process and no other, a repeated one changes nothing; one made after the exit is recorded as late |
| `ProcessTeardown.Loop.RunEvent` | src/nav/event/process.c:214-220 | the next event at any time: the invariant stays, and closing the handles closes every stream |
| `ProcessTeardown.Loop.PipeGone` | src/nav/event/stream.c:99-111 | each callback of a handle counts down, and the last one takes the process off the list and announces the exit |
| `ProcessTeardown.Loop.AnnouncedOnce` | src/nav/event/process.c:183-200 | under every interleaving the exit is announced at most once, and only when the process has exited and every handle is closed |
| `ProcessTeardown.Loop.AnnouncedAtLast` | src/nav/event/process.c:183-220 | once the exit event has run, writes are completed and callbacks have come, it is announced, and the process is off the list |
| `ProcessTeardown.Loop.TimerAtRest` | src/nav/event/process.c:125-237 | when all have exited, the kill timer runs if and only if a stop was asked for after an exit |
| `ProcessTeardown.LateStop` | src/nav/event/process.c:125-147 | such a run: no process is left, and the timer runs |
| `ProcessTeardown.Loop.KillTick` | src/nav/event/process.c:149-172 | the signals sent are those due; under this invariant, which every callback keeps, a process gets SIGTERM at most once and before any SIGKILL, neither before its time has passed since the first request to stop |
| `RingBuffer.RBuffer.Write` | src/nav/rbuffer.c:142-160 | the longest prefix that fits is appended to the queue of bytes, in at most two chunks |
| `RingBuffer.RBuffer.Read` | src/nav/rbuffer.c:162-180 | the longest prefix available is taken, in at most two chunks; when this leaves the stream standing exactly while the buffer is full |
| `RingBuffer.RBuffer.Consumed` | src/nav/rbuffer.c:125-140 | the read pointer moves over the queue's first bytes; from a full buffer the stream is started whatever the count and after its end too |
| `RingBuffer.RBuffer.Cmp` | src/nav/rbuffer.c:192-206 | the sign of the bytewise comparison with the queue's first bytes, across the wrap |
| `RingBuffer.RBuffer.Receive` | src/nav/event/rstream.c:83-128 | what waits is stored as far as the room up to the wrap allows, and the stream stops when the buffer is full |
| `RingBuffer.Run` | src/nav/rbuffer.c:84-180 | over any run of writes and reads, the bytes read and those still held are the bytes accepted, in order; the stream stands exactly while the buffer is full |
| `RingBuffer.RunStream` | src/nav/event/rstream.c:35-128 | over any run of a stream, with its end at any point: the same about the bytes received, and the stream runs exactly while it has not ended and there is room |
| `RingBuffer.ZeroRead` | src/nav/rbuffer.c:125-140 | a read of no bytes from a full buffer starts the stream, without room |
| `LayoutTree.BufsAdded` | src/nav/tui/layout.c:124-155 | adding puts the new window right before the focused one, and the order of all others stays |
| `LayoutTree.BufsRemoved` | src/nav/tui/layout.c:183-219 | removing takes out this window, and the order of all others stays, through every collapse |
| `LayoutTree.GoodKept` | src/nav/tui/layout.c:124-219 | both keep the shape: siblings in one direction, at least two children in every container below the root |
| `LayoutTree.RemoveUndoesAdd` | src/nav/tui/layout.c:124-219 | removing the window just added gives back the very tree there was before |
| `LayoutRects.NeverOverlap` | src/nav/tui/layout.c:58-95 | no cell is in two windows, and none outside the screen is in any |
| `LayoutRects.TiledIff` | src/nav/tui/layout.c:58-95 | the windows cover the screen if and only if in every container the remainder is smaller than a division |
| `LayoutRects.FiveByThree` | src/nav/tui/layout.c:63-66 | three windows in five lines leave two lines empty |
| `LayoutLinks.PlantSound` | src/nav/tui/layout.c:140-152 | relinking for a window of the focused one's direction is `Added` on the tree and keeps the invariant |
| `LayoutLinks.ForkSound` | src/nav/tui/layout.c:133-152 | the same when the focused container becomes the parent of a copy of itself |
| `LayoutLinks.DropSound` | src/nav/tui/layout.c:183-200 | unlinking a window is `Removed` on the tree and keeps the invariant |
| `LayoutLinks.FoldSound` | src/nav/tui/layout.c:202-210 | the same when its container takes over the last child left |
| `Layout.FindContainer` | src/nav/tui/layout.c:165-181 | null only for a buffer with no window below; a container that has the buffer otherwise, and for a buffer that is shown it is the leaf, although containers keep buffers that they once had |
| `Layout.Update` | src/nav/tui/layout.c:58-95 | it comes to an end exactly when no container is smaller than its number of children; then every leaf below has the rectangle that its buffer was told, and these are the ones of `LayoutRects.Rects` |
| `Layout.Layout.AddBuffer` | src/nav/tui/layout.c:124-155 | the tree is the one with the window added beside the focused one; the new one has the focus; if no container is too small it is shown directly left of the focused one in the same lines for left and right, directly above it in the same columns for up and down, and alone on the whole screen if it is the first; counts and parents fit the lists |
| `LayoutPlaces.ShownBeside` | src/nav/tui/layout.c:58-155 | the same about the rectangles of any tree |
| `Layout.Layout.RemoveBuffer` | src/nav/tui/layout.c:183-219 | the tree is the one without the window; the focus stays, or goes to the first window of the next sibling or else of the previous one |
| `Layout.Layout.Refresh` | src/nav/tui/layout.c:323-329 | a new size reaches every window |
| `Layout.Layout.Run` | src/nav/tui/layout.c:58-219 | over any run of adds of fresh buffers, removals of shown ones and resizes, until a container is too small: each step changes the tree as it should, the windows are exactly the live buffers, the shape holds, the focus is a leaf, or the root when there is none, and the windows have the rectangles of the last update |
| `Layout.FocusShown` | src/nav/tui/layout.c:109-122 | the focus is on one of the windows shown, unless there is none |
| `Layout.TwoInOneLine` | src/nav/tui/layout.c:63-66 | two windows one above the other in a single line: the second one makes the update divide by zero |

## Findings

Where the code does not do what it is for. Each has an input, and the exact condition where it is a matter of degree.

- `map_closest` on a map emptied by `map_delete` answers with the value deleted last (src/nav/lib/map.c:204-206), where
  src/nav/lib/map.h:11-13 promises NULL: `CritBitMap.ClosestOnEmptiedMap`. On all other maps it keeps that promise.
- An empty first parameter of a control sequence is lost (src/nav/vt/vt.c:1003-1012): `ESC [ ; 5 H` goes to row 5 and not
  to column 5. `CsiParams.EmptyFirstFieldIsLost`, `ScannedExactly`.
- Mode 1049 saves the cursor of the screen it switches to, not of the one it leaves (src/nav/vt/vt.c:968-983), so a
  full-screen program moves the cursor of the normal screen to where it was saved last. `Terminal.CursorLost`,
  `Terminal.Vt.CursorSurvives`.
- ED overwrites the attributes saved for DECRC, because it saves its own there (src/nav/vt/vt.c:728-748): pen and
  character set come back as they were at the last erasure. `Terminal.SavedPenLost`, `Terminal.Vt.SaveAndRestore`,
  `Terminal.PenComesBack`.
- With the wrap pending on a screen that was never wider, HTS, TBC 0, ED 1 and EL 1 write one element past an
  array (src/nav/vt/vt.c:738, 819, 1084, 1231). `TerminalPane.FullLineAndTabStop`, `ControlEffects.OverrunByCsi`,
  `ControlEffects.OverrunByEscape`.
- A resize loses the cursor's line when it lies below the scroll region, or when the region starts below the last row
  that stays (src/nav/vt/vt.c:376-383): only the region is scrolled. `ScreenBuffer.Buffer.LostBelowRegion`, `CursorLine`.
- A scroll forward by exactly the height of the region, or a multiple of it, marks no row for drawing
  (src/nav/vt/vt.c:343-358, where `row_roll` does nothing for a count of 0): when a view that was scrolled back so far
  and then drawn is put back, `vt_draw` leaves the old lines on the display. `ScreenBuffer.Buffer.Scroll`,
  `ScrollIsMarked`, `Buffer.PutBackUnmarked`, `Buffer.OtherRowShows`.
- Reserving colours (0,0), which all pairs of the table start with, before a pair is handed out makes the search for a
  pair endless (src/nav/vt/vt.c:1780-1817): `ColorPairs.BlackReserved`, `Cache.RoomAtStart`, `Cache.NoRoomLeft`.
- With all pairs of the table reserved the search is endless, `ColorPairs.TableReserved`, or goes by colours that were
  never set, `TableEmpty`. With all that the cache may use reserved, but more in the table, it ends with a pair past
  the limit, `PastLimit` (src/nav/vt/vt.c:1782-1786). `Cache.SearchEnds` and `Cache.Search` have the exact conditions.
- A reservation after pairs were handed out can leave the cache naming a pair for colours that it no longer holds
  (src/nav/vt/vt.c:1811-1813). `ColorPairs.LateReservation`, `Cache.Reserve`.
- A listener keeps a deleted record when the records are deleted by another field and others with its value stay
  (src/nav/table.c:457-525). `Tables.DeletedRecordKept`, `DeletedBound`.
- The memory of a write that the system refuses stays accounted for (src/nav/event/wstream.c:70-90).
  `ProcessTeardown.RefusedWrite`, `Stream.MemoryReturned`.
- `process_stop` after the exit counts a request that nothing takes back, and the kill timer goes on
  (src/nav/event/process.c:139-146, 222-231). `ProcessTeardown.LateStop`, `Loop.TimerAtRest`.
- A read of no bytes from a full ring buffer starts its stream again, and so would a read from a full one after the
  stream's end (src/nav/rbuffer.c:133-138, src/nav/event/rstream.c:77-83). `RingBuffer.ZeroRead`, `RBuffer.Consumed`.
- The remainder of a division is taken by the size of a part and not by the number of parts (src/nav/tui/layout.c:63-66):
  lines stay empty, `LayoutRects.FiveByThree` and `TiledIff`; and a container smaller than its number of children
  divides by zero, `Layout.TwoInOneLine` and `Update`.

## Left out

- CritBitMap.Map.CopyFrom: does not model copying a map into itself or into a part of itself, and no failed allocation.
- `map_free`, `map_free_full` and `map_multi_suffix`; the freeing of nodes.
- ScreenBuffer.Buffer.VtResize: the active buffer only; the other one is resized too but its cursor is not clamped
  (src/nav/vt/vt.c:1472-1485). The tab stops after a resize are not modelled.
- ScreenBuffer.Buffer.Draw: the marks only. The drawing itself, which also writes default colours into the cells, is
  left out, and which rows are marked is promised of the buffer's own steps, not of every sequence.
- Keys, mouse, window titles, the pty, and `vt_content_get`.
- TerminalPane.Pane.SetTab: an overrun is recorded; what it overwrites is not modelled. The same holds for the other three.
- TerminalPane.Pane.InsertChars: parameters and counts are unbounded integers. In C a number of many digits overflows int,
  and a huge count makes the sum at src/nav/vt/vt.c:837 negative.
- Terminal.Vt.Feed: characters come decoded; widths and the line-drawing table are parameters (a width below 1 counts
  as 1, as in src/nav/vt/vt.c:1371-1372). The number of an OSC sequence is not read.
- ColorPairs.Cache.Get: for colours that the terminal does not have, as `vt_default_colors_set` lets a view set them
  (src/nav/vt/vt.c:1443-1448), it says that the request strays, not what it comes upon.
- ColorPairs.Cache.Search: the loop has a number of turns; the endless one is every number of them.
- HashTable.Hash.Add: fresh keys only; the hash of a key is a parameter, and each item keeps it. The Bloom filter, the
  hash functions, HASH_SELECT, HASH_REPLACE and the wrap of 32-bit counters are left out.
- Tables.Table.Insert: every field of the table exactly once, as transactions fill it. Left out are `rec_count`, listeners
  with an empty key, which `fnd_lis` rebinds, fields made after records, `tbl_del`, and the memory of transactions.
- RemoveTree.RemoveEntry: removal without errors, cancellation or other users of the file system. Copying, moving,
  sizes and progress (`tsize`, `file_progress`) are left out.
- ProcessTeardown.Loop.Spawn: which handles libuv opens is given; the detach flag and the exit status are left out.
- RingBuffer.RunStream: no `rbuffer_write` to a stream's buffer, no idle reader for files (`fread_idle_cb`) and nothing of
  what the read callback is told.
- RingBuffer.RBuffer.Cmp: at most as many bytes as the buffer holds.
- Layout.Layout.RemoveBuffer: a buffer that is shown. For any other one the source takes out the container that had it
  once, or follows a null pointer.
- Layout.Update: sizes are naturals, and the rectangles of inner containers are not part of what is promised, only those
  of windows. Swapping, moving between windows and `buf_toggle_focus` are left out.
- The script engine, completion, menus, plugins, options, hooks, history, regular expressions and logging.
- Failed allocations and integer overflow.
