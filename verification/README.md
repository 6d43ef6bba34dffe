# The storage engine of DB/C, modelled in Dafny

Eight C files of `common/support` hold the storage engine of DB/C. This project models what they compute and proves what they
are for:

- `aio.c`, the associative index. A record is filed by turning on its bit in the slots that its edge characters and trigrams
  hash to. A lookup demands slots hashed the same way, walks up or down the records that are in all of them through a sliding
  window over chained extents, and hands them to an exact test. (`AimHash`, `AimFile`, `AimWindow`, `AimView`, `AimInsert`,
  `AimKey`, `AimIndex`, `AimSearch`, `AimFree`, `AimMeaning`)
- `base.c`, the compacting allocator: blocks behind handles, in address order in one arena, some of which may be given up,
  oldest first. (`ArenaLinks`, `ArenaBroken`, `ArenaSpace`, `ArenaBuffers`, `ArenaState`, `Arena`)
- `sio.c`, the external sort: displacement-address sort of index words with group-end flags, insertion sort of small groups,
  rearrangement in place, runs on a work file, merge phases. (`SortKey`, `SortNumeric`, `SortDisplace`, `SortProcess`,
  `SortGroups`, `SortWrite`, `SortMerge`, `SortPool`, `SortSteps`, `SortPasses`, `SortPhases`, `SortRun`, `SortMeaning`, `SortLimits`)
- `rio.c`, record input and output: space and digit compression, a buffer that is either read or dirty, reading forward and
  backward. (`RioCodec`, `RioBuffer`, `RioGet`, `RioPrev`, `RioFile`, `RioRun`, `RioMeaning`)
- `fio.c`, file handles: open numbers that share records, handles closed and reopened behind the caller's back, position locks.
  (`FioTable`, `Fio`, `FioRun`, `FioMeaning`)
- `tcp.c`, the wire: modified UTF-8 in arbitrary pieces, and lists of quoted tokens. (`TcpUtf8`, `TcpQuote`, `TcpMeaning`)
- `tim.c`, time stamps. (`Calendar`, `CalendarMeaning`)
- `xml.c`, trees of elements: the text form, with all values quoted, the table that keeps each name once, and the parser that builds
  linked records from the end of a buffer and strings from its start. (`XmlTags`, `XmlTree`, `XmlFlatten`, `XmlScan`, `XmlBack`,
  `XmlGrammar`, `XmlStore`, `XmlCells`, `XmlReader`, `XmlParse`, `XmlWritten`, `XmlMeaning`, `XmlPrinted`)

Code that changes state is written as classes and methods over arrays, as in the source, and proved against functions of the
old state. An arena is an `array<byte>`, a disk file a `seq<byte>`, an index extent a sequence of bytes, slot after slot. What
the source leaves to the operating system is an argument or a method without a promise about its choice: how much a socket takes
or delivers, whether a lock is granted, how many handles may be open at once.

The methods are proved against functions. What these functions mean is said once more, on bytes and numbers alone and without the functions
they are built from, in the modules whose names end in `Meaning` and in `XmlWritten`, `XmlPrinted` and `SortLimits`: which records a key
selects and which slots they are filed under, what order a list of keys gives, what bytes a record becomes, when a file may be shared, how
bytes and tokens go over the wire, what moment a stamp is, and which texts say which tree.

The main results:

- **No record is missed.** Every stored record that the exact test accepts for the current lookup is listed by the walk
  (`AimSearch.FindAll`), and still is when records are filed between its steps (`AimSearch.SearchWhileInserting`). The walk
  itself lists exactly the records in all slots, in order, up or down, whatever the window, the narrowing, and the purging of
  the AND buffer do (`AimSearch.CollectForward`, `CollectBackward`, `AimIndex.Index.NextRec`).
- **The allocator keeps every block.** Each call keeps what every other handle holds; a request fails exactly when it does not
  fit beside the blocks that must stay, and no more buffers are given up than needed (`Arena.Arena.Alloc`, `Change`, `Compact`).
- **The sort sorts**, from put to get, within any memory, exactly when its merge phases end (`SortRun.SortAll`,
  `SortRun.CanSortExactly`).
- **Files behave like plain files**, through whole runs of calls, under the record layer (`RioRun.Run`) and under the file
  handles (`FioRun.Run`).
- **Round trips**: records written and read forward and backward (`RioFile.WriteReadBack`), bytes over the wire in any pieces
  (`TcpUtf8.ReceiveAll`), token lists (`TcpQuote.ReadList`), trees of elements written and parsed, exactly when there is room for them
  (`XmlParse.WriteAndRead`), stamps advanced and measured (`Calendar.AddThenDiff`).
- **What a text says**: a text is read as a tree if and only if it is one of the ways to write that tree, which are given byte for byte
  (`XmlMeaning.TextMeans`); line ends, blanks and the marks around values do not count (`XmlMeaning.LayoutIsFree`).

## Findings

Where the code does not do what its callers may expect, the exact condition is a lemma or a contract.

- **An extent that is too small.** `aioinsert` sizes a new extent by the distance d of the record from the end of the file,
  rounded up to 32, and so leaves it one record short when d is a multiple of 32 and not below the extent size asked for
  (`AimFile.GrowthFits`: it fits if and only if d < step or d % 32 != 0; `AimFile.GrowthMisses`: 512 and 512). The record's own
  bits then fall outside its slots (`aio.c:879-882`).
- **A right-edge key longer than its field.** `aiokey` moves the text by the wrong sign: `01RABCD` on a field of two characters
  looks for `1R` and not for `CD` (`AimKey.TruncationGoesWrong`). The text starts where it should exactly when the key is not of
  kind R or the characters looked at are no more than its field holds, for keys of any length (`AimKey.TruncationIsRight`, which also
  says when the text starts before the key; `aio.c:446-456`).
- **Deleted records of later extents.** The deleted-record slot of later extents is addressed with `>> 8` where bits are filed
  with `/ 8`; the byte looked at belongs to another slot for every record number (`AimFree.LaterExtentsClash`; `aio.c:1155`, `aio.c:1236`).
- **Walking forward from before the beginning.** After a search back to the beginning that found nothing from a later extent, and
  a purge of the AND buffer, a step forward reads before the extent it believes to be in. `AimIndex.Index.NextRec` says exactly
  when; `AimSearch.Stranded` reaches such a state (`aio.c:634-668`).
- **Resizing while blocks are given up.** `memchange` takes a block's neighbours before `memoryalloc` may give them up. For the last
  block, whenever giving up buffers is what makes the room, the call either stops the program with its internal error or leaves
  `memsize` wrong (`Arena.Arena.GrowLast`, `TakeFound`). For any other block, whenever a neighbour is among the buffers given up, the
  call reports success and leaves links that no list of blocks has (`ArenaBroken.Broken`). `Arena.Arena.Change` says exactly when each of
  the two happens (`base.c:441-474`).
- **`memsize` past the arena.** Moving the last block to the left does not take the shift off `memsize`. From an end of what is in use
  inside the arena, a resize leaves it outside if and only if the last block grows by more than the room behind it and by no more than
  that and the gap before it (`Arena.Arena.Change` with `Overruns`; `Arena.PastTheEnd`: 64 in an arena of 48 bytes; `base.c:416-435`).
  It is never past the arena by more than the last block's size (`ArenaSpace.Spaced`, kept by every call).
- **A size that rounds to zero.** The fifteen greatest sizes in 32 bits, and no others, round up to 0 (`Arena.RoundIs`); `memchange` then
  makes the block empty and reports success (`Arena.Vanish`; `base.c:405-406`).
- **Merge phases that never end.** With the least memory that `bufinit` settles for, a phase merges runs one by one when there are
  more runs than are merged at once, and leaves as many as there were (`SortPhases.LeastMemoryStalls`, `NeverFewer`;
  `SortPhases.PhasesEnd` says exactly when the phases end).
- **Reading on after the end of a merge.** After `sioget` has reported the end, further calls give out as many records again as the
  last, unfinished buffer held: none if and only if the records put in fit in the buffer or fill it a whole number of times
  (`SortRun.SortAndGoOn`; `SortRun.OneTooMany`: three records of 600000 characters; `sio.c:302-312`).
- **Numbers with points in different columns** compare by their characters: 15 comes before `2.` (`SortNumeric.PointsMatter`). Any two
  layouts with their points in different columns have numbers in the wrong order, except `.5` against `2.` and `.` against a digit
  (`SortNumeric.LayoutsMatter`, an if and only if; `sio.c:618-628`).
- **A backward read from past the end of the file.** Without a buffer, `rioprev` takes the bytes there are for those next to the
  position: from position 5 of a file of four bytes it returns the last record of that file (`RioPrev.BeyondGivesRecord`). It agrees
  with the buffered read exactly when nothing of what it looks at is in the file (`RioPrev.BeyondAgrees`; `rio.c:868-880`).
- **The end of an unfinished record.** A forward read comes to the same with and without a buffer if and only if the end of the file
  does not cut off a deleted record or the compressed part of a record (`RioGet.BuffersAgree`; `RioGet.BuffersDiffer`: a file that ends in
  the mark of a deleted record, or in a run of blanks without its length; `rio.c:528-560`, `rio.c:790-800`).
- **The empty list of tokens.** `tcpnextdata` returns an empty token for an empty text for ever and never reports its end; the end
  is found exactly when the list is not empty (`TcpQuote.ReadAtMost`; `tcp.c:1055-1061`).
- **A mode that cannot be asked for.** `fioopen` accepts modes up to `FIO_M_EFC` and so refuses `FIO_M_EOC`, which is above it
  (`Fio.Files.Open`; `fio.c:445`).
- **A size that is remembered.** The size of a file that is open for shared reading is the size found first, whatever other programs
  have done to it since (`Fio.Files.GetSize`, `OtherProgram`).
- **Long differences.** `timdiff` counts at most 247 days; the difference is exact if and only if the calendar days between the stamps
  are at most that (`Calendar.DiffExact`; `tim.c:441-447`).
- **Character data at the end.** A valid tree is not parsed back if it is nested more than 16 deep or ends in character data at the
  top: the parser wants a tag behind all data (`XmlGrammar.PrintThenParse`, an if and only if; `xml.c:374`).
- **Numbers in base sixteen.** The parser makes a letter upper case and compares it with a lower-case x, so `&#x41;` is always refused
  (`XmlScan.HexRefused`; `xml.c:237`, `xml.c:350`).
- **A name that the table has no text for.** When the text of the names runs over, the table keeps an entry whose text was never
  written, and the length stays past the end. `XmlTags.Tags.GetTag` says exactly when, and what the table then holds; a name of 1999
  letters does it to a new table (`XmlTags.LongName`; `xml.c:600-607`).

## Model

| member | source | states |
|---|---|---|
| `AimHash.PatternCovered` | common/support/aio.c:800-847 | Every slot that a lookup table demands is among the slots a record is filed under, for each record that the exact test accepts by that table: the two trigram loops, with their different skips, never disagree to the loss of a record. |
| `AimHash.HashRecord` | common/support/aio.c:800-847 | Hashing a record turns on exactly the edge and trigram slots of all its key fields. |
| `AimHash.HashKey` | common/support/aio.c:498-532 | Hashing a lookup key adds exactly the edge and trigram slots that its kind (exact, left, right, free) and the match character leave. |
| `AimHash.XHash` | common/support/aio.c:978-985 | One call turns on one slot and no other. |
| `AimHash.Compare` | common/support/aio.c:1001-1040 | One comparison run succeeds if and only if the text matches the field at that column, character by character, with folding and match characters. |
| `AimHash.CheckRecord` | common/support/aio.c:989-1044 | The exact test answers 0 if and only if the record satisfies every entry of the lookup table. |
| `AimKey.TruncationIsRight` | common/support/aio.c:446-456 | For keys of any length, the text is taken from the intended place if and only if the key is not a right-edge key or what is looked at of it is no longer than its field; and it is taken from before the key exactly when it is longer by more than the three characters of the header and those passed over. |
| `AimKey.TruncationGoesWrong` | common/support/aio.c:446-456 | A concrete right-edge key, longer than its field, becomes an exact key for other characters. |
| `AimFile.PosUnique` | common/support/aio.c:936-957 | A byte of an extent belongs to one slot and one offset only, so that turning on a bit of one slot leaves every other slot alone. |
| `AimFile.ChainBitsAdded` | common/support/aio.c:936-957 | Setting a record's bits in its extent adds exactly those bits, for that record number, to the whole chain. |
| `AimFile.Appended` | common/support/aio.c:872-934 | Appending an extent of zeros changes no bit of the file. |
| `AimFile.GrowthFits` | common/support/aio.c:879-882 | A new extent holds the record that made it necessary if and only if the distance is below the extent size asked for or not a multiple of 32. |
| `AimFile.GrowthMisses` | common/support/aio.c:879-882 | A concrete distance for which the new extent is one record short. |
| `AimWindow.BuildAnd` | common/support/aio.c:723-757 | After reading and ANDing the slots one by one, with the early end and the narrowing from both sides, the window has a bit on exactly when the record is in every slot demanded; what it reports as zero is zero. |
| `AimWindow.Narrow` | common/support/aio.c:741-752 | Narrowing leaves out only bytes that are zero. |
| `AimWindow.ScanForward` | common/support/aio.c:615-631 | The upward scan finds the first set bit at or after a record, or shows there is none. |
| `AimWindow.ScanBackward` | common/support/aio.c:615-631 | The downward scan finds the last set bit at or before a record, or shows there is none. |
| `AimView.ShowsContent` | common/support/aio.c:723-757 | A window that is the AND of the chosen slots of an extent shows exactly the visible candidates of the whole file in its range. |
| `AimView.WindowFirst` | common/support/aio.c:615-631 | The first set bit of the window is the next record of the walk, given that nothing was left out before the window. |
| `AimView.WindowLast` | common/support/aio.c:615-631 | The last set bit of the window is the previous record of the walk, given that nothing was left out behind the window. |
| `AimInsert.FindExtent` | common/support/aio.c:852-874 | The extent of a record number is found, and the end of the chain is reached if and only if the number lies past all extents. |
| `AimInsert.SetBits` | common/support/aio.c:936-957 | A record that its extent covers has its bit turned on in every slot of its pattern and no other bit changes. |
| `AimInsert.CoversTable` | common/support/aio.c:958-968 | The comparison of two slot tables is the inclusion of their patterns. |
| `AimInsert.GainsInPlace` | common/support/aio.c:936-957 | The file gains the record's bits in its own slots, and nothing else, when its extent exists. |
| `AimInsert.GainsByAppending` | common/support/aio.c:877-934 | A zero extent behind the last keeps every bit of the file, in both directions. |
| `AimInsert.PlaceBits` | common/support/aio.c:849-957 | Filing a record, in an extent that exists or in a new one, adds exactly its own bits whenever the growth is large enough, and loses no bit in any case. |
| `AimInsert.ShowsAfterInsert` | common/support/aio.c:958-968 | The cached window still shows exactly the visible candidates after an insertion: it gains the new record only if its slots cover the lookup. |
| `AimInsert.VisibleAfterInsert` | common/support/aio.c:958-968 | No stored record whose own slots cover the lookup becomes invisible to the walk by an insertion. |
| `AimIndex.Index.constructor` | common/support/aio.c:385-397 | A new index is consistent. |
| `AimIndex.Index.Key` | common/support/aio.c:401-534 | A key is accepted if and only if its header is good and its text lies within it; it then adds the one entry it spells to the lookup, or starts a new lookup, and only an excluded field leaves the walk closed. |
| `AimIndex.Index.SearchForward` | common/support/aio.c:615-668 | The forward search stops at the first visible record from its start, across windows and extents, or shows that there is none up to the end. |
| `AimIndex.Index.SearchBackward` | common/support/aio.c:669-708 | The backward search stops at the last visible record up to its start, or shows that there is none down to the beginning. |
| `AimIndex.Index.ForwardStart` | common/support/aio.c:551-607 | Before a step forward, the cursor lies inside what the window and the extent cover, except exactly after a search back to the beginning from a later extent. |
| `AimIndex.Index.BackwardStart` | common/support/aio.c:551-607 | Before a step backward, everything between the window and the cursor has been found empty, and the byte looked at first lies in the window. |
| `AimIndex.Index.NextRec` | common/support/aio.c:538-782 | Each call returns the next visible record at or after, or before, the cursor, or reports the end with nothing left, for every flag and every state left by earlier calls; it is refused exactly without a lookup, and goes outside its extent exactly in one state. |
| `AimIndex.Index.Purge` | common/support/aio.c:1259-1270 | Giving up the AND buffer between calls keeps the index consistent and loses nothing of the walk. |
| `AimIndex.Index.CommitWalk` | common/support/aio.c:849-968 | An insertion in the middle of a walk keeps the window, the hidden records and the stored records consistent. |
| `AimIndex.Index.Insert` | common/support/aio.c:786-974 | Inserting files the record under its own slots, at its number, in an extent that exists or a new one, changes no other record's bits, and updates the walk in progress; exactly where the growth misses, no bit is gained. |
| `AimSearch.CollectForward` | common/support/aio.c:538-782 | FIRST and then NEXT lists, in increasing order and once each, exactly the record numbers in every slot of the lookup. |
| `AimSearch.CollectBackward` | common/support/aio.c:538-782 | LAST and then PREV lists exactly the same, in decreasing order. |
| `AimSearch.TurnAtEnd` | common/support/aio.c:538-782 | After the end, a step back is to the last match, or finds nothing if there was none. |
| `AimSearch.TurnAtBeginning` | common/support/aio.c:538-782 | After the beginning, a step forward is to the first match. |
| `AimSearch.FindAll` | common/support/aio.c:538-782 | Every stored record that the exact test accepts for the current lookup is listed by the walk: no false negatives, from insertion through hashing, filing and walking. |
| `AimSearch.SearchWhileInserting` | common/support/aio.c:849-968 | The same for all records stored at the start when further records are inserted between the steps of the walk. |
| `AimSearch.Stranded` | common/support/aio.c:634-668 | A sequence of calls after which NEXT reads before its extent. |
| `AimFree.LowestFree` | common/support/aio.c:1048-1166 | The lowest set bit of the first nonzero byte is the smallest deleted record. |
| `AimFree.FreeRecords.FindByte` | common/support/aio.c:1100-1110 | Reading the slot in chunks finds the first nonzero byte, or shows that the set is empty. |
| `AimFree.FreeRecords.DelRec` | common/support/aio.c:1170-1240 | Deleting adds the record number to the set, if the extent covers it, and keeps the low-water mark at or below the lowest member. |
| `AimFree.FreeRecords.GetRec` | common/support/aio.c:1048-1166 | Asking for a record takes the smallest number out of the set, and reports none exactly when the set is empty. |
| `AimFree.Drain` | common/support/aio.c:1048-1166 | Asking until none is reported gives every deleted record once, in increasing order. |
| `AimFree.LaterExtentsClash` | common/support/aio.c:1155-1155 | With the shift used for later extents, the byte looked at lies in another slot than the one where deleted records are filed, for every record number. |
| `AimMeaning.HeaderMeans` | common/support/aio.c:428-441 | A key is good if and only if it has two digits, the first of which may be a blank, for a field that there is, one of the letters X, L, R and F in either case, and something to look for; the field is ten times the first digit and the second. |
| `AimMeaning.KeySelects` | common/support/aio.c:443-496 | What the entry of one key accepts, on bytes: for F the records that hold the folded text somewhere in the field, for L at its first column, for R ending at its last, for X the whole field with blanks behind; a longer key is cut at the field. |
| `AimMeaning.EachKey` | common/support/aio.c:989-1044 | A lookup of several keys selects the records that each of its keys selects. |
| `AimMeaning.RecordSlots` | common/support/aio.c:800-847 | The slots of a record by number: of each field that is not excluded, its first, first two, last and last two characters and each three characters in a row without a blank, with the five low bits of each side by side. |
| `AimMeaning.KeySlots` | common/support/aio.c:498-532 | The slots that a key demands by number: of its edges as its letter allows, and of three characters in a row, without blanks and match characters. |
| `AimMeaning.FiledWhere` | common/support/aio.c:936-957 | The bit of a slot for a record is bit r % 8 from the low end of byte r / 8 of the slot, and the slots lie one behind the other. |
| `AimMeaning.GrowthIs` | common/support/aio.c:879-882 | A new extent has the least number of records that is a multiple of 32, no less than asked for, and no less than the distance. |
| `ArenaSpace.SlideStep` | common/support/base.c:607-640 | Moving the next block down to the end of those already packed keeps what every block holds. |
| `ArenaSpace.OthersKept` | common/support/base.c:394-474 | A change within the room of a block leaves what all other blocks hold. |
| `ArenaSpace.TightWithout` | common/support/base.c:477-510 | Taking out the last or an empty block leaves no gap, so a known absence of holes stays true. |
| `ArenaBuffers.FixedFreed` | common/support/base.c:517-604 | What is in use is what must stay and what all registered buffers would free, each counted once. |
| `ArenaState.RightWithout` | common/support/base.c:477-510 | Unlinking a record keeps the list in address order, its ends, the spare records and the bound on the end of what is in use. |
| `ArenaState.RightPacked` | common/support/base.c:607-640 | After compaction there is no hole and `memsize` is the sum of all sizes. |
| `ArenaState.RightRelocated` | common/support/base.c:455-474 | Unlinking a record and linking it behind the last, with its block at the end, keeps the whole state consistent. |
| `Arena.Arena.constructor` | common/support/base.c:136-273 | A new arena is consistent and holds nothing. |
| `Arena.Arena.Alloc` | common/support/base.c:278-371 | An allocation fails if and only if the rounded size exceeds the arena less what must stay; every other block is kept; only as many of the oldest buffers are given up as it takes, and each owner is called once, in order; the new block has the rounded size and is zero if asked. |
| `Arena.Arena.Change` | common/support/base.c:394-474 | Resizing in place, by moving left, after compaction or at the end keeps the common part of the block and all other blocks, zeroes the rest if asked, and succeeds if and only if the size can be had. Exactly when buffers have to be given up for the last block it stops the program or leaves a wrong end, and exactly when a neighbour of another block is given up for it no list has the links that are left. The end of what is in use leaves the arena exactly when the last block overruns. |
| `Arena.Arena.GrowLast` | common/support/base.c:441-450 | Growing the last block beyond what compaction can give fails cleanly if and only if giving up every buffer would not make the room. |
| `Arena.Arena.TakeFound` | common/support/base.c:444-450 | Memory found for the last block is always taken wrongly: the program stops or the end of what is in use is wrong. |
| `Arena.Arena.Relocate` | common/support/base.c:441-474 | A block without room around it moves behind all others, with its contents, if its neighbours stay; if one is given up, the links come apart. |
| `ArenaBroken.Broken` | common/support/base.c:459-473 | When a block is taken out between two records one of which has been given up, and put behind the last, no list of blocks has the links that are left. |
| `ArenaBroken.SeveredMore` | common/support/base.c:493-503 | A record that is freed still leads to the one that was behind it, which leads back to it no more, however many are freed later. |
| `Arena.RoundIs` | common/support/base.c:405-406 | A size is rounded up to a multiple of sixteen, and is no smaller for it, unless it is one of the fifteen greatest; exactly these round to zero. |
| `Arena.Vanish` | common/support/base.c:394-474 | A request for one of the fifteen greatest sizes empties the block, touches no other, and reports success. |
| `Arena.PastTheEnd` | common/support/base.c:416-435 | A state of an arena of 48 bytes from which a resize leaves what is in use ending past the arena. |
| `Arena.Arena.Free` | common/support/base.c:477-510 | Freeing removes exactly that handle, from the buffers too. |
| `Arena.Arena.Compact` | common/support/base.c:607-640 | Compaction keeps what every handle holds and leaves no hole. |
| `Arena.Arena.Register` | common/support/base.c:517-560 | A registered block is the newest buffer, and is one once only. |
| `Arena.Arena.BufEnd` | common/support/base.c:563-585 | A block that is no longer a buffer may not be given up; the order of the others stays. |
| `Arena.Arena.BufRemove` | common/support/base.c:588-604 | Buffers are given up oldest first, until the bytes asked for are covered and no longer, or none is left. |
| `Arena.Arena.MemoryAlloc` | common/support/base.c:727-801 | Room is found behind all blocks if and only if the request fits beside the blocks that must stay. |
| `Arena.Arena.IsValidHandle` | common/support/base.c:658-695 | Every block's handle passes the checks, in every state. |
| `SortKey.LeIsTotalPreorder` | common/support/sio.c:545-587 | The order that a list of keys gives is total and transitive, whatever the keys. |
| `SortKey.CompRec` | common/support/sio.c:545-587 | The comparison has the sign of the order by the remaining columns of the current key and all later keys. |
| `SortKey.ScanNumber` | common/support/sio.c:593-616 | One pass over a field classifies it by its shape: blanks, then a sign or not, then digits and points. |
| `SortNumeric.NumericKeyOrder` | common/support/sio.c:545-628 | If the points of two numbers are in the same column, or both absent, the character comparison orders them by their decimal values; blank fields come before and invalid ones behind all numbers. |
| `SortNumeric.PointsMatter` | common/support/sio.c:618-628 | Two numbers with points in different columns that the comparison puts in the wrong order. |
| `SortNumeric.LayoutsMatter` | common/support/sio.c:545-628 | For two layouts of a field with at most one point each, in different columns, there are numbers in the wrong order if and only if the layouts are not a point before a digit against a digit before a point, or a point alone against a digit alone. |
| `SortProcess.DispAdrSort` | common/support/sio.c:410-519 | A group becomes a permutation of itself, in order of the ranks at one column, with the flags at exactly the ends of the groups of equal rank, and the counters back at zero. |
| `SortDisplace.BoundsFit` | common/support/sio.c:451-461 | The addresses made from the counts give each rank as many places as there are records of it, without overlap, within the group. |
| `SortDisplace.Displace` | common/support/sio.c:462-518 | The cycles of displacements put every record of the group in the bucket of its rank, each record once. |
| `SortProcess.InsertSort` | common/support/sio.c:523-541 | A small group ends as a permutation of itself in order by all remaining columns and keys. |
| `SortGroups.Process` | common/support/sio.c:375-406 | The index words end as a permutation of all records, in sequence by all keys, with every group that the flags delimit equal in all keys. |
| `SortWrite.Rearrange` | common/support/sio.c:718-734 | Following the cycles with one spare record leaves the buffer in exactly the order that the index words gave, and the words as the identity. |
| `SortWrite.AppliedSame` | common/support/sio.c:718-734 | Records taken in the order of a permutation are the same records. |
| `SortMerge.InsertMerge` | common/support/sio.c:982-1011 | The binary search puts the first run at a place that makes the heads of all runs ascend, and moves no other. |
| `SortSteps.GetMerged` | common/support/sio.c:304-333 | Taking a record from runs being merged gives the least of all that is left, across refills of the buffers and ends of runs, and takes out that record only. |
| `SortSteps.MergeAll` | common/support/sio.c:866-910 | A merge writes all records of its runs, each once, in ascending order. |
| `SortPhases.BufferHolds` | common/support/sio.c:790-800 | Every merge buffer holds at least one record. |
| `SortPhases.PassProgress` | common/support/sio.c:776-788 | At least two runs are merged at a time if and only if all can be merged at once or there is room for two buffers beside the output. |
| `SortPhases.MergePhase` | common/support/sio.c:758-931 | A phase leaves sorted runs with all the records, and one run for each group. |
| `SortPhases.NeverFewer` | common/support/sio.c:776-788 | Otherwise every phase leaves as many runs as it was given. |
| `SortPhases.PhasesEnd` | common/support/sio.c:773-788 | The phases end if and only if at least two runs are merged at a time at first. |
| `SortPhases.LeastMemoryStalls` | common/support/sio.c:1023-1026 | With the least memory and more runs than are merged at once, the phases do not end. |
| `SortPhases.Merge` | common/support/sio.c:758-978 | Whenever the phases end, they leave runs with all the records, ready to be taken in order. |
| `SortRun.BufferOfOne` | common/support/sio.c:1023-1041 | The memory settled for always holds a record and the spare one. |
| `SortRun.Sort.constructor` | common/support/sio.c:121-176 | A new sort holds nothing and is ready to be filled, whatever memory is asked for. |
| `SortRun.Sort.WriteOut` | common/support/sio.c:677-753 | The buffer becomes one more sorted run of the same records. |
| `SortRun.Sort.Put` | common/support/sio.c:204-250 | A record put in is added to what is held, in memory or in runs, and a full buffer becomes a run. |
| `SortRun.Sort.StartOutput` | common/support/sio.c:252-300 | From whatever was put in, memory alone, one run or several, output is prepared without losing a record. |
| `SortRun.Sort.Get` | common/support/sio.c:252-334 | Each record got is one of those left and none of those left precedes it; the end is reported exactly when none is left, and the count of the last buffer is then still what it was. |
| `SortRun.CanSortExactly` | common/support/sio.c:776-788 | More records than the buffer holds can be sorted exactly when the merge phases for the number of runs they make come to an end. |
| `SortRun.SortAll` | common/support/sio.c:121-334 | Putting in any records and getting them until the end gives the same records in ascending order. |
| `SortRun.Sort.GetAgain` | common/support/sio.c:302-306 | A call after the end answers 1 if and only if as many records have been counted out as the last buffer held. |
| `SortRun.SortAndGoOn` | common/support/sio.c:252-312 | After the end of any sort, further calls give out exactly as many records as were left over from whole buffers, and none if and only if the records fit in the buffer or fill it a whole number of times. |
| `SortRun.OneTooMany` | common/support/sio.c:1023-1041 | Three records of 600000 characters, with the memory a sort has by default, are such a case. |
| `SortMeaning.NumberMeans` | common/support/sio.c:593-616 | The shapes of a number field on its bytes: blanks, then nothing, a sign or none, digits with points, or none of these. |
| `SortMeaning.CompareMeans` | common/support/sio.c:545-587 | The comparison from a column on is decided in the first key with a difference there, by the first column that differs, the other way round for a descending key. |
| `SortMeaning.OrderMeans` | common/support/sio.c:545-587 | One record comes no later than another if and only if the first key in which they do not tie puts it first, or they tie in all keys. |
| `SortMeaning.PlainOrder` | common/support/sio.c:566-566 | For one character key: the fields are equal, or the first column where they differ has the lower byte, or the higher one for a descending key. |
| `SortMeaning.CollatedOrder` | common/support/sio.c:554-565 | For one collated key that is not positional: the same by the places of the characters in the collating sequence. |
| `SortMeaning.OneKey` | common/support/sio.c:545-587 | Two keys tie if and only if the columns of the field do. |
| `SortLimits.MemoryMeans` | common/support/sio.c:1015-1045 | The memory of a sort and the records its buffer holds, in bytes and numbers. |
| `SortLimits.PhasesMean` | common/support/sio.c:776-790 | The phases suffice if and only if two records with 36 bytes each fit beside 65552 bytes, or there are at most 34 runs and a record of each fits beside 16. |
| `SortLimits.PassMeans` | common/support/sio.c:776-788 | All runs are merged at once if there are at most 34 and they fit; otherwise at most 34, as few as two phases need. |
| `RioCodec.CompressBounds` | common/support/rio.c:1493-1526 | Compression never makes a record longer, and never makes a byte that could be taken for a mark. |
| `RioCodec.Comp` | common/support/rio.c:1493-1526 | The compression loop computes the specified compression, within the work buffer. |
| `RioCodec.ExpandBack` | common/support/rio.c:644-760 | Expanding a compressed record up to its end mark gives the record back, whatever was read before it. |
| `RioBuffer.RecordFile.WriteBack` | common/support/rio.c:1952-1973 | Writing out the dirty bytes makes the disk what the caller sees. |
| `RioBuffer.RecordFile.ReadForward` | common/support/rio.c:1911-1948 | The bytes handed out are those of the file at the position asked for, with room for a sentinel, and none are handed out exactly at its end. |
| `RioBuffer.RecordFile.ReadBackward` | common/support/rio.c:1911-1948 | The bytes handed out end at the position asked for. |
| `RioBuffer.RecordFile.Put` | common/support/rio.c:1148-1422 | A record put is written, compressed or not, at the next position over what was there, with an end mark and the file's end mark if it extends the file, whatever the buffer holds; the caller's record is as before. |
| `RioBuffer.RecordFile.ParPut` | common/support/rio.c:1426-1489 | The same for a part of a record, without marks. |
| `RioBuffer.RecordFile.SetPos` | common/support/rio.c:1688-1708 | Moving the position changes no byte of the file. |
| `RioBuffer.RecordFile.Flush` | common/support/rio.c:1827-1846 | After a flush the disk holds what the caller sees. |
| `RioGet.Get` | common/support/rio.c:464-819 | A record read is what the bytes at the next position spell, whatever the size of the buffer and wherever it ends, also between a space mark and its count; the file and what the caller sees of it stay. |
| `RioGet.BuffersAgree` | common/support/rio.c:528-819 | A forward read comes to the same with and without a buffer if and only if the end of the file does not cut off a deleted record or a compressed part that has room for all its characters. |
| `RioGet.BuffersDiffer` | common/support/rio.c:528-819 | Two files, of one byte each, that are read differently. |
| `RioPrev.Prev` | common/support/rio.c:825-1142 | A backward read gives what the bytes before the last position spell, across buffers, and leaves the positions around that record. |
| `RioPrev.BeyondAgrees` | common/support/rio.c:868-889 | Without a buffer, a read back from past the end of the file is right if and only if no byte that it looks at is in the file. |
| `RioPrev.BeyondGivesRecord` | common/support/rio.c:868-889 | A position past the end of a file from which it returns that file's last record. |
| `RioFile.ReadAt` | common/support/rio.c:464-819 | In a file of records, a forward read at any record gives that record and its length. |
| `RioFile.ReadBackAt` | common/support/rio.c:825-1142 | A backward read from the end of any record gives that record. |
| `RioFile.WriteReadBack` | common/support/rio.c:464-1142 | Records written to a new file are read forward to the end and then backward to the beginning, all of them, for every buffer size and every mixture of lengths. |
| `RioRun.Run` | common/support/rio.c:1355-1973 | Any interleaving of put, part put, position, get, get back and flush does to the file and returns what the same calls do on plain bytes. |
| `RioRun.OneOutcome` | common/support/rio.c:464-1142 | The calls on plain bytes leave no choice: the code, the bytes and the new state are determined. |
| `RioMeaning.CompressMeans` | common/support/rio.c:1493-1526 | How a record is compressed, byte for byte: runs of 3 to 248 blanks become 0xF9 and the length, longer ones are cut at 248, one or two blanks stay; two digits or points become one byte; anything else stays. |
| `RioMeaning.DigitsHalve` | common/support/rio.c:1512-1521 | A record of 2n digits or points becomes n bytes, the i-th of which is 128 + 11 * a + b with a point counted as ten; an odd one at the end stays. |
| `RioMeaning.PutMeans` | common/support/rio.c:1313-1350 | What a put writes: the record, the byte 0xFA, and 0xFB if it ends the file. |
| `RioMeaning.OverlayMeans` | common/support/fio.c:940-947 | Bytes written at a position stand there, all others stay, and a gap is filled with zeros. |
| `RioMeaning.ExpandMeans` | common/support/rio.c:736-790 | What each byte of a compressed record says when it is read. |
| `RioMeaning.ReadMeans` | common/support/rio.c:464-819 | What a read finds first: nothing, the end mark, deleted bytes, or a record up to its mark. |
| `FioTable.OpenCount` | common/support/fio.c:604-653 | The count of open handles is the number of records that have one. |
| `Fio.Files.Open` | common/support/fio.c:406-596 | An open either changes nothing but handles, for a reason that holds, or takes the first free number and shares the record of that name if it has one. |
| `Fio.Files.OpenHandle` | common/support/fio.c:604-653 | A closed handle is opened again, unless the operating system's limit is reached and no handle may be closed. |
| `Fio.Files.CloseOldest` | common/support/fio.c:1003-1043 | The handle closed is that of the least recently used record among the shared ones without locks; none is closed exactly when there is none. |
| `Fio.Files.CloseGiven` | common/support/fio.c:1003-1043 | The handle behind a number is closed, and its locks are gone. |
| `Fio.Files.Close` | common/support/fio.c:695-734 | A number is given back; the record stays, less that number's locks, if and only if other numbers share it. |
| `Fio.Files.Read` | common/support/fio.c:876-911 | A read returns the bytes of the plain file at its position, whether or not it had to seek or open. |
| `Fio.Files.Write` | common/support/fio.c:916-954 | A write overlays the plain file and no other. |
| `Fio.Files.GetSize` | common/support/fio.c:960-993 | The size is that of the plain file, or, for shared reading, the one found first. |
| `Fio.Files.Trunc` | common/support/fio.c:1103-1118 | The plain file has the new size, cut or filled with zeros. |
| `Fio.Files.Touch` | common/support/fio.c:1052-1078 | A touched record is the one used last, and its handle is open. |
| `Fio.Files.LockPos` | common/support/fio.c:1348-1411 | A lock of a position is entered once granted, and denied to all but its holder. |
| `Fio.Files.UnlockPos` | common/support/fio.c:1419-1458 | Exactly the locks named are removed, the others stay in order. |
| `Fio.Files.LockFile` | common/support/fio.c:1288-1324 | A file lock is noted, and keeps the handle open. |
| `FioRun.AtTheLimit` | common/support/fio.c:1003-1043 | When no handle may be closed and no locks are held, the open handles are at most the files open exclusively. |
| `FioRun.Run` | common/support/fio.c:406-1118 | Over any run of opens, shared opens, closes, reads, writes, sizes, truncations, touches and handles closed by age, each call answers and does what it does on plain files that are always open; it fails only if plain files refuse it too or the exclusive files reach the system's limit. |
| `FioMeaning.RunFromStart` | common/support/fio.c:604-653 | At every point of every run of calls, a file first opened in mode 4, 5, 7 or 9 has one open number, two numbers stand for one file only in modes 1, 2, 3, 6 and 8, and an open in the shared mode a file is open with fails only at the limit of the operating system. |
| `FioMeaning.SharingAfter` | common/support/fio.c:630-643 | Every call of a run keeps this, whatever its outcome. |
| `FioMeaning.OpenMeans` | common/support/fio.c:630-643 | An open of a file that is open is refused if and only if it is not in the mode of the first open, being 1, 2, 3, 6 or 8, and not in mode 6 behind mode 8; an open of another one if and only if the file is missing for modes up to 6 or exists for mode 9. |
| `FioMeaning.RefusalMeans` | common/support/fio.c:916-933 | Writing and cutting are refused in modes 1, 2 and 4 and for numbers not in use, everything else for numbers not in use only. |
| `FioMeaning.OpenedMeans` | common/support/fio.c:604-653 | What an open that succeeds changes: one number, and in modes 7 and 8 the bytes of the file unless it is open already. |
| `TcpUtf8.RoundTrip` | common/support/tcp.c:829-944 | Decoding undoes encoding, for every string of bytes. |
| `TcpUtf8.WholePrefix` | common/support/tcp.c:617-775 | Whole characters at the front of an encoding are the encoding of a prefix, and what follows is that of the rest. |
| `TcpUtf8.TcpSend` | common/support/tcp.c:785-959 | However the network takes the bytes, a send reports success only when it has sent the whole encoding, and never sends anything but a prefix of it. |
| `TcpUtf8.TcpRecv` | common/support/tcp.c:603-783 | However the network delivers, each successful receive takes whole characters off the wire and returns what they encode, at least one byte and at most as many as asked for. |
| `TcpUtf8.SendAll` | common/support/tcp.c:785-959 | Messages sent one after the other put the encoding of all of them on the wire. |
| `TcpUtf8.ReceiveAll` | common/support/tcp.c:603-783 | Receiving gives a prefix of what was sent, also while the rest is still to come; when all of it has come, all of it. |
| `TcpQuote.ScanBody` | common/support/tcp.c:1067-1083 | Scanning the quoted form of a token, which may hold blanks, quotes and backslashes, gives the token and stops behind the blank that follows. |
| `TcpQuote.QuotedCopy` | common/support/tcp.c:1032-1053 | The quoted form is written where it should be and nowhere else. |
| `TcpQuote.NextData` | common/support/tcp.c:1055-1084 | Unquoting in place gives the next token, and changes nothing outside it; the end is reported exactly when only blanks are left of a text that is not empty. |
| `TcpQuote.WriteList` | common/support/tcp.c:1032-1053 | A list is written as its quoted tokens with single blanks between. |
| `TcpQuote.ReadList` | common/support/tcp.c:1055-1084 | Reading a list that was written gives exactly that list. |
| `TcpQuote.ReadAtMost` | common/support/tcp.c:1055-1084 | Reading at most n tokens finds the end if and only if the list is not empty and has fewer than n. |
| `TcpMeaning.EncodeMeans` | common/support/tcp.c:929-944 | How each byte is sent: zero as C0 80, bytes up to 7F as they are, others as two. |
| `TcpMeaning.BitsMean` | common/support/tcp.c:935-937 | The two bytes are C0 with the upper two bits and 80 with the lower six. |
| `TcpMeaning.NoZeroSent` | common/support/tcp.c:929-944 | No zero is ever on the wire, and the length is one for each byte and one more for zeros and bytes over 7F. |
| `TcpMeaning.QuotedMeans` | common/support/tcp.c:1032-1053 | A quoted token byte for byte: two marks when empty, a backslash before each backslash and mark, and marks around all from the first blank on. |
| `Calendar.CompareIsSign` | common/support/tim.c:405-422 | The comparison of fields is the order of absolute times, and equal only for equal stamps. |
| `Calendar.PrintBack` | common/support/tim.c:280-365 | The sixteen digits of a stamp are accepted exactly if the stamp is valid, and give it back. |
| `Calendar.ChkStamp` | common/support/tim.c:331-365 | A text is accepted if and only if it is sixteen digits of a moment from 1901 to 2099; otherwise nothing is filled in. |
| `Calendar.TimAdd` | common/support/tim.c:280-329 | The text becomes the digits of the moment that many hundredths later, through all carries. |
| `Calendar.TimCmp` | common/support/tim.c:405-422 | For stamps that name moments the answer is the sign of the time between them; for all others it is the sign of the first field that differs, the greatest unit first. |
| `Calendar.TimDiff` | common/support/tim.c:425-454 | The loop over months computes the specified difference, and leaves the earlier stamp moved to the later month. |
| `Calendar.DiffExact` | common/support/tim.c:425-454 | The difference is antisymmetric, has the sign of the comparison, and is exact if and only if the days apart are at most 247. |
| `Calendar.AddThenDiff` | common/support/tim.c:280-454 | Advancing a stamp gives a stamp if and only if the sum is before the year 2100; measuring from where it was then gives the advance back if and only if the days apart are at most 247. |
| `CalendarMeaning.AbsMeans` | common/support/tim.c:280-329 | The moment of a stamp without the table of months: 365 days a year and one more in every fourth, the days before the month, and 24 hours of 60 minutes of 60 seconds of 100 hundredths. |
| `CalendarMeaning.MonthMeans` | common/support/tim.c:40-40 | Months have 31 days, April, June, September and November 30, February 28, or 29 in every fourth year. |
| `CalendarMeaning.DiffMeans` | common/support/tim.c:425-454 | What is measured between two moments: their distance, with no more than 247 days counted. |
| `CalendarMeaning.DigitsMean` | common/support/tim.c:331-365 | Which sixteen digits are accepted, and the field that each of them belongs to. |
| `XmlTags.Tags.GetTag` | common/support/xml.c:574-616 | A name is found from its hash code on if it is known, and entered if there is room; the pointer given stands for it, and the table keeps all earlier names. It says exactly when there are too many names, and exactly when the text runs over; then an entry leads to text that was not written. |
| `XmlTags.SamePointer` | common/support/xml.c:574-616 | Two pointers to names are the same if and only if the names are. |
| `XmlTags.GetTwo` | common/support/xml.c:574-616 | Two calls give the same pointer if and only if they are given the same name. |
| `XmlTags.LongName` | common/support/xml.c:600-607 | A name of 1999 letters makes the text of a new table run over. |
| `XmlTags.EmptyEntry` | common/support/xml.c:600-601 | The table always has an empty entry, so every search ends. |
| `XmlFlatten.FlattenString` | common/support/xml.c:476-546 | A string is written escaped, within quotation marks or not, if and only if there is room for it; nothing before it changes. |
| `XmlFlatten.Flatten` | common/support/xml.c:386-464 | The walk with a stack of open elements writes exactly the text form of the tree, and succeeds if and only if the text fits and the tree is not nested more than sixteen deep. |
| `XmlScan.HexRefused` | common/support/xml.c:235-240 | A numeric escape in base sixteen is always refused. |
| `XmlScan.NoZeros` | common/support/xml.c:200-260 | No value read holds a zero, which would end it. |
| `XmlBack.CharBack` | common/support/xml.c:207-257 | An escaped character, of any byte, is read as that byte if something comes behind it, and refused otherwise. |
| `XmlBack.StrBack` | common/support/xml.c:323-372 | An escaped string is read as the string, up to the mark that ends it. |
| `XmlBack.AttrsBack` | common/support/xml.c:173-270 | Attributes that were written are read with the same names, values and order. |
| `XmlBack.StartBack` | common/support/xml.c:123-292 | The start of an element that was written is read as that start. |
| `XmlBack.EndBack` | common/support/xml.c:123-156 | The end of an element that was written is read as that end. |
| `XmlGrammar.ParseBack` | common/support/xml.c:109-384 | Wherever the text form of nodes stands, parsing goes from in front of it to behind it with just these nodes added. |
| `XmlGrammar.PrintThenParse` | common/support/xml.c:109-464 | A valid tree is what its text form says if and only if it is not nested more than sixteen deep and does not end in character data; otherwise the text is refused. |
| `XmlStore.ClaimsFirst` | common/support/xml.c:109-384 | What has been claimed of the buffer and the names at any time comes first in what the whole tree claims. |
| `XmlStore.HasAllIs` | common/support/xml.c:161-195 | All claims can be met if and only if their bytes fit together and their names can be entered. |
| `XmlCells.ElementClosed` | common/support/xml.c:144-156 | Closing an element sets the last link within it, and makes it a finished node behind those before it. |
| `XmlCells.LayKeeps` | common/support/xml.c:109-384 | Following the links through records so laid out, with strings that end with a zero, gives back the nodes. |
| `XmlReader.StringInto` | common/support/xml.c:200-262 | The loop over a string leaves what it stands for in the buffer, or finds an error or too little room, and only then. |
| `XmlParse.Build.AddAttr` | common/support/xml.c:175-269 | An attribute is entered with its name and its string, and claims just their room; it fails only if it is malformed or cannot be had. |
| `XmlParse.Build.AddItem` | common/support/xml.c:123-380 | Each tag or piece of data changes the linked records as the grammar says, keeps strings and records apart, and fails only for cause. |
| `XmlParse.ParseText` | common/support/xml.c:109-384 | A text is parsed if and only if it says a tree for which there is room and names; the links then lead through exactly that tree, and strings and records do not meet. |
| `XmlParse.WriteAndRead` | common/support/xml.c:109-464 | A valid tree, written and parsed, is the same tree, exactly if it is not too deep, does not end in character data, and there is room for its text, its records and its names. |
| `XmlMeaning.TextMeans` | common/support/xml.c:109-384 | A text is read as a tree if and only if it is one of the ways to write it, given byte for byte: line ends before a bracket, blanks within a tag, values in quotation marks, in apostrophes or in none, characters as themselves, by five names or by decimal or octal numbers, at most sixteen elements open, and no data at the end. |
| `XmlMeaning.LayoutIsFree` | common/support/xml.c:119-281 | For every text that says a tree, any other line ends before its tags, any other blanks in them and any other marks around its values, at any depth, leave the tree the same. |
| `XmlMeaning.LinesBeforeTag` | common/support/xml.c:121-124 | Any bytes 10 and 13 before the bracket of a tag change nothing, whatever has been read before. |
| `XmlWritten.DocumentRead` | common/support/xml.c:109-384 | Each way to write a tree is read as that tree. |
| `XmlMeaning.ParseFound` | common/support/xml.c:109-384 | What is read of a text, at each point of it, is so written. |
| `XmlPrinted.PrintMeans` | common/support/xml.c:386-473 | How an element and character data are written, byte for byte. |
| `XmlPrinted.EscapeMeans` | common/support/xml.c:476-546 | How a character is written: five by name, control characters and those from 127 on by their decimal number, and all others as they are. |
| `XmlPrinted.RoomMeans` | common/support/xml.c:161-195 | What a tree takes of the buffer: forty bytes for each element or piece of data, thirty-two for each attribute, and each string with its zero. |
| `XmlPrinted.NamesMean` | common/support/xml.c:574-616 | A name is entered if it has one letter, is known, or is among the first 376 and the text of all stays below 2000 bytes. |

## Left out

- AimIndex.Index.Insert: promises the record's bits only where the new extent is large enough; where it is one record short the
  bits are lost, and an error may or may not be reported.
- AimIndex.Index.Key: a failure of memory, and the 16 bits of the size of the lookup table, are not modelled.
- AimIndex.Index.NextRec: what is read outside the extent in the one state where that happens is not modelled; the call ends there.
- AimFree.FreeRecords.GetRec: one extent, files of version 9 and up; the older chain of deleted records is not modelled.
- RioPrev.Prev: without a buffer, from past the end of the file, the outcome depends on a byte that the work buffer happens to hold.
- SortRun.Sort.GetAgain: which bytes the record has that is given out after the end of a merge is not modelled; the order of the merged
  runs and the records share their memory with the merge buffers.
- Calendar.TimAdd: the sum of the hundredths must fit in 32 bits, as the code assumes.
- TcpUtf8.ReceiveAll: a connection that fails in the middle of a character loses the bytes already taken of it.
- Index: the headers and links of extents are a sequence of extents; the lookup table is a sequence of entries; the walk is split into
  methods by direction; failures of reading and writing are not modelled.
- Allocator: records are kept as links and blocks, the table of buffers as a sequence; growth of the arena by `realloc`, the disabled
  hole filling and the alignment of the arena itself are left out.
- Sort: the order array is modelled at the length in use, with the flag bit as a field of its own; the three copies of the displacement
  loop are one; the blocks and links of the work file are a list of runs; failures of memory and of the work file are not modelled. The
  sort is not stable, and nothing is said about records with equal keys.
- Records: variable-length records of the standard type, in files with an end-of-file mark, in exclusive mode; files without the mark,
  fixed-length, DOS, MAC and ANY types, change logging, record deletion and shared mode are not modelled.
- Files: library members, search paths, the fixing up of names, failures of memory, locks for exclusive opening, closing all handles at
  once, renaming and deleting are not modelled.
- Wire: sockets, encryption and time limits; the three-byte branch of the sender, which no byte reaches; `tcpquotedlen`.
- XmlTags.Tags.GetTag: after the text of the names has run over, nothing more is promised.
- Trees: unquoted values, as for streams; pointers within records are numbers of records, attributes of a record are a sequence, and a
  record's tag is the name that its pointer stands for; error messages; the two copies of the loop over characters are one.
- Terminal display, certificates, configuration and the server's requests are not modelled.
