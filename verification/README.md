# Themis

A model of the log-structured core of Themis, a wear-levelling variant of the
NOVA file system for persistent memory, with proofs.

A file is a log of entries in chained pages, a page index in DRAM that points
into the log, and data blocks. Writes are copy-on-write: fill new blocks, append
entries, commit by one store to the log tail, then bring the index up to date.
When a log is full it is collected, fast (dead pages are unlinked) or thoroughly
(entries in use are copied to a new log). A mount replays the log.

The model is imperative where the source is. `InodeLog` and `NovaFile` are
classes whose methods perform the stores of the kernel code one by one. Every
store leaves a crash image on record: `trace` before the commit, `after` from
the commit on. The file system's promises are then statements about those images
and about `Replay`, the mount-time loop.

| file | contents |
|---|---|
| `LogPages`, `LogSurgery`, `LogInPlace` | entries in chained pages, the reader's walk, unlinking, extending and switching page chains, rewriting an entry in place |
| `FileReplay`, `LogMeaning` | what a log means, and what may be dropped or moved without changing that |
| `BlockLists`, `LogSweep` | the free blocks of each processor; what a collection drops, page by page, and when the thorough one is due |
| `InodeLog` | the log code: append, fast and thorough collection, commit |
| `HeaderRuns`, `AttributeRuns` | the header's pointers to the last attribute and link change, over any run of appends and collections |
| `FileData`, `FileIndex`, `WriteRuns`, `CowState`, `SizeChange` | bytes, the page index and its invalid-page counts, the state of an operation between its steps |
| `CrashView` | which file a crash image holds |
| `NovaFile` | write, read, truncate, change attributes and link count |
| `DirLog`, `NameHash`, `NovaDir` | directories: adding and removing names, the hash of a name, replay, collection |
| `CrashScan` | the scan after a crash that marks the blocks of a file in windows |
| `LiteJournal` | the undo journal and the transactions of create, link, unlink and rename |
| `RangeTree`, `FreeLists`, `InodeNumbers` | the allocators of blocks and of inode numbers |
| `PoolView` | the free lists seen as sets of blocks, the view on which `InodeLog` works |
| `BlockRecovery`, `RangeLog`, `Remount` | rebuilding the free lists from the bitmap; saving and loading range lists; a clean unmount and the mount after it |
| `InodeTable` | inode pages and their migration |
| `Options` | a value that may be missing |
| `WearCounters`, `Knapsack`, `SquareRoot` | the write counters; the choice of processes to move to DRAM; the integer square root |

## Model

| member | source | states |
|---|---|---|
| LogPages.WalkSeesLayout | nova.h:965-1009 | The reader's walk, which knows only page links, entry sizes and end-of-page marks, finds exactly the entries that were laid out, in order, and stops at the tail |
| LogPages.WalkIsUnique | nova.h:965-1009 | No image can be read as two different logs |
| LogPages.WalkSteps | inode.c:2573-2640 | A reader that holds the walked log stands, at each entry, where the walk stands |
| LogInPlace.StoreInPlace | inode.c:702-707 | Storing another entry of the same length over a committed one changes that entry in the log and nothing else |
| FileReplay.CompactionKeepsFile | inode.c:2537-2656 | Dropping any set of entries that the collectors consider invalid keeps page index and size, and leaves a log that can be collected again; attributes and link count too when the header points at their last change |
| FileReplay.MoveReplay | inode.c:1941-2034 | Replaying a log whose entries were moved gives the same file with its slots renamed |
| FileReplay.DeadEntriesDoNotMatter | inode.c:2590-2610 | Entries whose pages are all superseded may be counted dead or not: replay is the same |
| FileReplay.StaleSizeIsHarmless | inode.c:2537-2656 | The page index that replay builds does not depend on the size the inode holds when it begins, nor does the size once an entry carries one |
| FileReplay.TruncationCuts | inode.c:1509-1566 | Replaying a truncation deletes exactly the pages past the new end |
| LogSurgery.Snapshot | inode.c:2537-2560 | An image of a laid out log shows its committed entries and nothing past the tail |
| LogSurgery.UnlinkPage | inode.c:1929-1939 | Unlinking a page in the middle leaves a chain that holds the other pages |
| LogSurgery.CopyCompacts | inode.c:2074-2120 | What thorough collection copies is a compaction of what it walked |
| InodeLogs.TornIsUnreadable | inode.c:2327-2329 | No log can be read from an image with a tail but no head |
| InodeLogs.SafeIffNotTorn | inode.c:2327-2329 | All images of an operation are safe if and only if none is torn |
| InodeLogs.InodeLog.constructor | inode.c:1189-1231 | A new log is empty and well formed |
| InodeLogs.InodeLog.NewBlocks | balloc.c:777-869 | Some consecutive blocks out of one processor's list; fails if and only if no processor's list has the number asked for; the list keeps at least what is still to come |
| InodeLogs.InodeLog.FreeBlocks | balloc.c:284-417 | A run of blocks that are not free goes to the list of its first block; every free block stays in a list |
| InodeLogs.InodeLog.CoalesceLogPages | inode.c:1739-1772 | A run of pages is chained behind others, in order |
| InodeLogs.InodeLog.AllocateLogPages | inode.c:1774-1830 | All or nothing: the pages asked for, linked in order, or none if and only if no processor's list has so many; they are exactly the blocks no longer free |
| InodeLogs.InodeLog.FreeContiguous | inode.c:373-419 | Walking the chain frees each of its pages once, pages next to each other as one run, each run to the list of its first page; none is given back that is free already |
| InodeLogs.InodeLog.CurrPageInvalid | inode.c:1887-1915 | A page is invalid if and only if no entry on it is in use; if the index is exact, if and only if no slot and no header pointer points at an entry on it and it holds no truncation; exactly the bytes of the entries in use are added to the count |
| InodeLogs.InodeLog.FastGc | inode.c:2176-2304 | Exactly the dead pages before the tail page are dropped; the thorough collection follows only when less than half of the pages left would do, and then always unless no processor's list has its pages; the index follows; entries past the tail stay; every image is safe; no page is lost; it stops halfway only when no processor's list has a page; `how` records what was dropped and moved and what became of the header; if the index is exact, a page before the tail page stays if and only if it holds an entry that a slot or the header points at, or a truncation; dead pages go back one by one, each to the list of its part |
| InodeLogs.InodeLog.ThoroughGc | inode.c:2036-2164 | The entries in use before the tail page are copied, in order and tightly, to fresh pages, followed by the tail page; slots and header pointers follow their entries; the log is switched if and only if it has more than one page and some processor's list has the pages; no page is lost; if the index is exact, of the writes and names exactly those are copied that a slot points at, and every truncation; the old pages go back run by run |
| InodeLogs.FastKeepsNeeded | inode.c:1832-1885 | Which pages fast collection keeps, told from the index and the header |
| InodeLogs.CopyNeeds | inode.c:1832-1885 | Which entries thorough collection copies, told from the index and the header |
| InodeLogs.UsedIsNeeded | inode.c:1887-1915 | The bytes counted as in use are those of the entries that the index or the header points at and of the truncations |
| CowState.FileIndexExact | inode.c:1858-1865 | In a file, a write entry is in use if and only if a page is mapped to it |
| DirLogs.DirIndexExact | inode.c:1866-1871 | In a directory, an entry is in use if and only if replay finds a name at it |
| LogSweep.LogBlocksIsLeast | inode.c:2286-2288 | The pages asked for are the least number that holds the bytes in use |
| InodeLogs.InodeLog.StartLog | inode.c:2306-2345 | The first page is made visible by two stores, tail before head; the image between them is on record and torn |
| InodeLogs.InodeLog.StartWithTwo | dir.c:217-286 | A new log of one page with the two entries, one right behind the other; fails if and only if no processor's list has a page |
| LogSweep.SweptCompacts | inode.c:2198-2240 | Dropping whole dead pages is a compaction |
| LogSweep.PagesBefore | inode.c:2198-2250 | The entries before the tail page lie on as many pages as the collection has checked |
| InodeLogs.InodeLog.GetAppendHead | inode.c:2399-2446 | A place for the entry in a log with the same entries, at the old place unless the entry does not fit; no place if and only if pages are needed and no processor's list has the number asked for; no page is lost |
| InodeLogs.InodeLog.Append | inode.c:2448-2482 | The entry lies behind all others past the tail; the committed log is a collected form of the old one; fails exactly when there is no place; one image is torn if and only if the log got its first page |
| InodeLogs.InodeLog.UpdateTail | nova.h:1357-1372 | One store commits everything written past the tail, in order |
| InodeLogs.InodeLog.RewriteEntry | inode.c:702-707 | A committed entry is replaced in place; the image is on record |
| LogMeaning.CollectedKeepsFile | inode.c:2036-2304 | A collected log replays to the same blocks and size |
| LogMeaning.CrashKeepsFile | inode.c:2036-2304 | From a safe image the next mount finds a log, only one, and it gives the blocks and the size the operation began with |
| LogMeaning.GcKeepsFile | inode.c:2036-2304 | Collection renames the page index and changes nothing else of the file |
| LogMeaning.ThoroughGcKeepsAttrIff | inode.c:2036-2164 | One thorough collection keeps the attributes if and only if a later change lies on the tail page, or no truncation was collected, or the last truncation carries the last attributes |
| LogMeaning.ChmodAfterTruncateIsLost | inode.c:2000-2010 | A log of truncate, chmod, write whose chmod thorough collection loses |
| HeaderRuns.HeaderSurvivesIff | inode.c:2000-2010 | After thorough collection the header points at the last attribute change if and only if none was copied or none lies on the tail page |
| HeaderRuns.SecureIff | inode.c:2000-2010 | With a right header a log is secure if and only if it has no attribute change, or no truncation, or its last truncation carries the last attributes |
| AttributeRuns.AttributesSurviveIff | inode.c:1832-2304 | With a right header the attributes survive every run of appended writes and link changes, counts in place and collections as the code performs them if and only if there is no change, or no truncation, or the last truncation carries the attributes of the last change |
| AttributeRuns.SecureLogsKeepAttributes | inode.c:1832-2304 | A secure log stays secure and keeps its attributes over any such run, whether or not the header is right |
| AttributeRuns.InsecureLogsLoseAttributes | inode.c:1832-2304 | From any other log with a right header, appending writes and link changes until the log is long, and one collection, lose the last attributes |
| AttributeRuns.ChmodCanBeLost | inode.c:2000-2010 | A truncation and a later chmod: the header is right, and a run loses the chmod |
| AttributeRuns.ChmodTakenBackSurvives | inode.c:2000-2010 | A chmod that is taken back after a truncation is never lost |
| HeaderRuns.ThoroughKeepsLink | inode.c:1992-2034 | The link pointer always follows the last link change |
| HeaderRuns.GcKeepsHeaders | inode.c:1832-2304 | A collection keeps secure attributes, the link pointer and the link count |
| HeaderRuns.GcKeepsTruncations | inode.c:1832-2304 | No collection changes which truncation is the last |
| FileData.ChunkReads | dax.c:196-254 | A file that has received a filled chunk reads as if that part of the buffer had been written |
| FileData.BlocksForIsLeast | dax.c:391-395 | The blocks asked for are the least number that holds the bytes |
| FileIndex.CountsKeepReplay | inode.c:677-737 | Exact counts do not disturb replay |
| FileIndex.CountsKeepSound | inode.c:677-737 | Nor do they disturb the order that makes compaction safe |
| FileIndex.GcKeepsCounts | inode.c:1941-1966 | Collection keeps counts exact |
| FileIndex.WholeRun | dax.c:93-108 | An entry without invalid pages owns the slots of all its pages |
| WriteRuns.CrashWhileIndexing | dax.c:256-293 | A crash halfway through indexing finds a sound log that replays to the committed file |
| SizeChange.CommitOther | inode.c:1599-1651 | What one more attribute or link change makes of the replayed file |
| SizeChange.ResizedBytes | inode.c:1400-1469 | Zeroing the last page and cutting the pages past the end make the resized file |
| CrashView.ZeroPastAtCommitIff | inode.c:1632-1645 | In the image of the commit, before the last page is zeroed, the bytes past the new end are zero if and only if they were zero before; `NotifyChange` states this of its own first image |
| CrashView.StaleByteAtCommit | inode.c:1632-1645 | A write and a truncation: from any image that shows this log with the old bytes, an old byte comes back when the file grows |
| CrashView.CrashReadsOldFile | dax.c:337-553 | A safe image with the old bytes intact holds the old file, byte for byte, in a sound log |
| CrashView.CrashReadsNewFile | dax.c:507-520 | An image from the commit on holds the new file, byte for byte, in a sound log, so that the scan after a crash can run on it |
| CrashView.TornHoldsNothing | inode.c:2327-2329 | A torn image holds no file |
| NovaFiles.NovaFile.constructor | inode.c:1189-1231 | A new file is empty and in order |
| NovaFiles.NovaFile.AssignWriteEntry | inode.c:677-737 | Every page of the entry is mapped to it; the superseded pages are counted invalid and their blocks freed, each once and by itself; every crash image replays to the goal |
| NovaFiles.NovaFile.ReassignFileTree | dax.c:256-293 | Walking the committed entries on media indexes each of them |
| NovaFiles.NovaFile.LookupBlock | nova.h:797-866 | The index and the entry it points at give the block of the page, or tell that there is none |
| NovaFiles.NovaFile.HandleHeadTailBlocks | dax.c:170-254 | The partial first and last block are filled up with the old bytes, or zeros in a hole |
| NovaFiles.NovaFile.NewDataBlocks | balloc.c:777-869 | Some consecutive free blocks, none if and only if no processor's list has the number asked for |
| NovaFiles.NovaFile.CowWrite | dax.c:337-553 | Done: every byte is the one of the buffer where it was written and the old one elsewhere; every block the file had before is still mapped, or it is free and went back by itself. Otherwise no processor's list had the number of blocks asked for and the old bytes are intact; when it reports no space, the blocks `lost` are neither free nor in the log nor in the file, and there are some if and only if the first request was met. Up to the commit every image but a torn one is safe with the old bytes intact; one is torn if and only if the log got its first page; from the commit on every image replays to the new file. Secure attributes and the link count stay. Every free block is in a list, and the lists differ from those before only by the blocks given back since |
| NovaFiles.NovaFile.DaxFileWrite | dax.c:337-564 | The same as a crash sees it: every image but a torn one holds the old file byte for byte before the commit, and the new one from then on; bytes past the end stay zero; a block that is no longer mapped is free and in the list of its own part of the device |
| NovaFiles.NovaFile.FindRun | dax.c:60-110 | A run of pages that lie in consecutive blocks, the rest of the entry if none of its pages is invalid and else one page; or a hole |
| NovaFiles.NovaFile.ReadFile | dax.c:31-154 | Reading returns the bytes of the file, cut at its end |
| NovaFiles.NovaFile.DeleteFileTree | inode.c:479-543 | The slots in the range are gone, the others stay; each block that was mapped there is freed exactly once; counts stay exact; every crash image replays to the goal; blocks next to each other go back as one run, in the order of the pages |
| NovaFiles.NovaFile.FindNextEntry | inode.c:616-638 | The first mapped page from a page on |
| NovaFiles.NovaFile.ClearLastPageTail | inode.c:1400-1434 | The rest of the page of the new end is zero and no other byte of the file changes |
| NovaFiles.NovaFile.TruncateFileBlocks | inode.c:569-614 | Exactly the pages past the new end are unmapped and their blocks freed |
| NovaFiles.NovaFile.SetSize | inode.c:1436-1469 | The file has the new size, with zeros past a smaller end |
| NovaFiles.NovaFile.NotifyChange | inode.c:1569-1651 | New size and attributes, a right header, the same link count; a byte is the old one, or zero past a smaller end; exactly the cut blocks are freed; stops if there is no place for the entry, and otherwise only when collection finds no page; crash images as for a write, and in the first one after the commit the bytes past the end are zero if and only if they were before; the cut blocks go back run by run; the change is recorded as a truncation if and only if it sets the size |
| NovaFiles.NovaFile.AppendLinkChange | namei.c:350-381 | The new link count, a right link pointer, the same file; no space if and only if there is no place for the entry; secure attributes stay |
| DirLogs.ReplayFindsNames | dir.c:416-515 | Replaying a directory log meets no insert conflict and finds exactly the names whose entries are valid, at their places |
| DirLogs.CompactionKeepsNames | inode.c:1866-1871 | Dropping any set of invalid entries and removal records keeps the replayed names |
| DirLogs.MovesKeepNames | inode.c:1968-1990 | Moving entries renames the slots of the name index and changes no name |
| DirLogs.GcKeepsNames | inode.c:2036-2304 | After any collection replay gives the same names, and the live index is what replay builds |
| DirLogs.GcKeepsDots | inode.c:1832-2304 | No collection moves the "." and ".." entries from the start of the first page |
| DirLogs.CrashKeepsNames | inode.c:2036-2304 | A safe image holds the old names: the next mount finds one log, and replaying it meets no conflict and gives them |
| DirLogs.InvalidateName | dir.c:68-104 | Marking the entry of a name invalid takes exactly that name out of the replayed directory |
| NovaDirs.NovaDir.AppendDirInitEntries | dir.c:217-286 | A new directory has the names "." and "..", the second right behind the first at the head of the log; fails if and only if no processor's list has a page |
| NovaDirs.NovaDir.ChangeParent | namei.c:709-724 | The entry at the fixed place behind "." is "..": storing there gives the directory another parent and changes no other name, also in the image |
| NovaDirs.NovaDir.AddDentry | dir.c:292-334 | The name is added, or its hash was there and nothing changes; stops if there is no place for the entry, and otherwise only when collection finds no page; up to the commit every image holds the old names, and from then on the new ones; "." and ".." stay where they are; the live index stays what replay would build; among names of at most nine 7-bit characters it is refused if and only if the directory has the name, and no other name is touched |
| NovaDirs.ShortNames | nova.h:700-713 | Among such names a hash is in the index if and only if the name has a valid entry |
| NameHash.HashIsValue | nova.h:700-713 | The hash is the name read as a number to the base 131, cut to 64 bits, for every name |
| NameHash.HashConcat | nova.h:700-713 | The hash of a name in terms of the hashes of its parts |
| NameHash.HashTellsApart | nova.h:700-713 | Two different names of at most nine 7-bit characters have different hashes |
| NovaDirs.NovaDir.RemoveDirRadixTree | dir.c:68-104 | The name leaves the index and its entry is marked before the commit; the image is on record and already holds the names without it |
| NovaDirs.NovaDir.RemoveDentry | dir.c:339-369 | Exactly the name is gone; images up to the mark hold the old names; the image of the mark, which is there if and only if the name was, and those from the commit on hold the names without it; "." and ".." stay where they are; the live index stays what replay would build; among names of at most nine 7-bit characters no other name is touched |
| CrashScan.SetRingArray | bbuild.c:902-922 | The array shows the window of the index after a write is entered |
| CrashScan.RingSetAttr | bbuild.c:946-980 | The array shows the window of the index after a truncation |
| CrashScan.SetFileBm | bbuild.c:924-944 | The blocks of the window are marked and the array is zero again |
| CrashScan.ScanLog | bbuild.c:998-1068 | One walk leaves in the array exactly the window of the replayed index, and marks the pages of the chain in the first window |
| CrashScan.TraverseFileLog | bbuild.c:982-1086 | The scan ends, marks exactly the pages of the log's chain and the blocks that replaying the log would map, and leaves the array zero for the next file |
| LiteJournal.RingStep | journal.c:41-50 | Entries stay on their page, and one or two of them can be told from none |
| LiteJournal.UndoRestores | journal.c:152-166 | Undoing gives back all old words, whatever subset of the stores in place has persisted |
| LiteJournal.RecoveryRestarts | journal.c:168-232 | Recovery cut short, with some journals already empty and the next one half undone, and started again gives back the old words |
| LiteJournal.TaggedUndoRestoresIff | journal.c:52-166 | As written, with the tag left in the address, undoing restores the words if and only if no store to be undone has persisted |
| LiteJournal.TaggedUndoMisses | journal.c:152-166 | A word that undoing with the tag stripped restores, and that undoing as written leaves changed |
| LiteJournal.SoftInit | journal.c:191-232 | Every uncommitted entry of every journal is undone and every journal is empty again; fails if and only if some journal's pointers are more than two entries apart |
| LiteJournal.Journal.CreateLiteTransaction | journal.c:86-130 | The undo entries become visible by one store; up to then and from then on recovery gives the old words |
| LiteJournal.Journal.StoreWord | namei.c:93-96 | A store in place to a journalled word keeps every possible crash recoverable to the old words |
| LiteJournal.Journal.CommitLiteTransaction | journal.c:132-150 | Up to the store to the head recovery gives the old words, after it the new ones; the undo entries cover exactly the words stored |
| LiteJournal.TransactionForNewInode | namei.c:70-108 | Create is all or nothing at every store |
| LiteJournal.TransactionForTimeAndLink | namei.c:294-347 | Link and unlink are all or nothing at every store |
| LiteJournal.TransactionForRename | namei.c:767-852 | Rename is all or nothing at every store, in all its branches; afterwards each of the words has its own new value, and every other word is as it was |
| LiteJournal.RenamedIsDone | namei.c:815-844 | Which word gets which value in each branch of a rename |
| RangeTree.FindRangeNode | balloc.c:129-156 | A search finds the range that holds the key, or ends at its neighbour in order |
| RangeTree.FindFreeSlot | balloc.c:235-276 | For a run that meets no range the neighbours are exact; a run that begins in a range is refused; only runs that meet a range are refused |
| RangeTree.RefusalDependsOnShape | balloc.c:235-276 | Two trees with the same ranges, one of which refuses an overlapping run |
| FreeLists.TotalIsSize | balloc.c:60-116 | The sum of the lengths of the ranges is the number of blocks in them |
| FreeLists.FreeList.constructor | balloc.c:60-116 | A list with one range is in order |
| FreeLists.FreeList.FreeBlocks | balloc.c:284-417 | A run that meets no free range is added and merged with its neighbours, so that maximal runs stay maximal; both counters, the first node and the allocation pointer stay right; otherwise refused and nothing changes; the allocation pointer moves only if its node is merged away |
| FreeLists.FreeList.AllocBlocks | balloc.c:616-709 | The run is the first min(num, size) blocks of the node at the pointer, for a superpage of the first node from there on that is large enough; the pointer stays at the node, or moves on if nothing is left of it; exactly the blocks taken are gone; a superpage is all or nothing and fails if and only if no node from the pointer on is large enough; no node is added |
| FreeLists.BlockAllocator.constructor | balloc.c:60-116 | The blocks are divided among the lists, none in two |
| FreeLists.BlockAllocator.NewBlocks | balloc.c:777-869 | Fails if and only if no processor's list has enough free blocks; the list is the processor's own if it has enough, else the first of those with most free blocks; the run comes from the node at its pointer, and nothing else changes |
| FreeLists.BlockAllocator.FreeRun | balloc.c:284-417 | An allocated run goes back to the list of its first block; no block ever is in two lists |
| PoolView.NoneIs | balloc.c:777-869 | The lists and their sets of blocks agree on whether some processor has the blocks |
| PoolView.TakeIs | balloc.c:777-869 | Taking a run out of a list takes exactly it out of the sets; every other block stays where it is |
| PoolView.FreeIs | balloc.c:284-417 | Freeing a run adds exactly it to the set of the list of its first block |
| InodeNumbers.InoParts | inode.c:851-899 | Processor and internal number can be told from an inode number |
| InodeNumbers.InodeMap.constructor | inode.c:35-70 | The reserved numbers are in use at first |
| InodeNumbers.InodeMap.AllocUnusedInode | inode.c:851-899 | The least unused number; fails if and only if every number below the limit is in use; the ranges stay maximal runs, and the first starts at 0 and is the one remembered |
| InodeNumbers.InodeMap.FreeInuseInode | inode.c:901-972 | Exactly that number is unused afterwards; fails if and only if it was not in use; the ranges stay in order if and only if it is not 0 |
| InodeNumbers.InodeMap.FailureInsert | bbuild.c:70-146 | Numbers that recovery finds in use are added and merged with their neighbours; refused only if one of them was in use already, and then nothing changes |
| BlockRecovery.InitBlockmap | balloc.c:60-116 | Each processor has as many blocks as every other, the shared list the remainder; together they divide all blocks without gap or overlap |
| BlockRecovery.BuildBlocknodeMap | bbuild.c:567-651 | The loop ends; each list holds exactly the clear bits inside its bounds, as maximal runs, with the right count |
| RangeLog.StepsToEntry | bbuild.c:360-389 | Writer and reader step to the same place for every entry, 254 to a page |
| RangeLog.PagesForIsLeast | bbuild.c:508-510 | The pages computed up front are the least number that holds the entries |
| RangeLog.SaveAll | bbuild.c:391-565 | The log holds all lists in order; with the pages computed up front it cannot fail |
| RangeLog.LoadInodeLists | bbuild.c:260-332 | Every entry is put into the list of its processor, in order; fails if and only if some entry names no processor |
| RangeLog.SaveAndLoad | bbuild.c:260-480 | The inode lists loaded at mount are those saved at unmount, list by list, with the processor in the top byte |
| Remount.SaveBlocknodeMappings | bbuild.c:482-565 | The pages for the log are taken out of the lists that are then saved, and suffice, as taking pages never adds a node; fails if and only if there is nothing to save or no processor's list has the pages |
| Remount.InitBlockmapFromInode | bbuild.c:183-243 | Each list holds exactly the saved entries whose first block lies in its part; no block is in two lists and every counter is right |
| Remount.FreeInodeLog | inode.c:2484-2514 | Freeing the log adds exactly its pages, run by run, each run to the list of its first page |
| Remount.UnmountAndMount | bbuild.c:183-565 | After a clean unmount and mount the same blocks are free, and as many, as before the unmount; every free block is in the list of the first block of a free run that it is in; saved if and only if there is something to save and some processor's list has the pages, else nothing changes |
| Remount.OwnPart | bbuild.c:183-243 | Unless the block just below its part is free, a free block is in the list of its own part |
| InodeTables.SlotsDiffer | inode.c:159-246 | Distinct inode numbers never share a slot |
| InodeTables.NumberOf | inode.c:159-246 | Place and slot tell the number of the inode |
| InodeTables.InodeTable.GetInodeAddress | inode.c:159-246 | The page and slot of the inode; the table grows by pages of zeros without changing any inode and stays a gapless prefix of distinct pages; fails only for an inode whose page is missing, and then only if the table may not grow or no page is free |
| InodeTables.InodeTable.UpdateInode | nova.h:1357-1372 | Exactly that inode changes, wherever its page lies |
| InodeTables.InodeTable.MigrateInodePage | wearleveling.c:221-312 | The page moves to a free one and no inode changes; fails if and only if there is no page to move or none is free; the old page does not become free |
| InodeTables.RunAll | wearleveling.c:221-312 | Any interleaving of updates and migrations leaves the table that the updates alone would leave |
| WearCounters.Counters.WriteCountIncrease | writecount.c:126-165 | Exactly the block's count grows; average and hand stay the mean of all counts and its remainder, the maximum stays the greatest count; plain writes are charged one by one, those of listed processes one for every five, when the sixth comes |
| WearCounters.MeanIsExact | writecount.c:158-165 | The average kept in constant time is the total number of writes divided by the number of blocks, rounded down |
| Knapsack.BestIsMaximum | detect.c:477-520 | The recurrence gives the greatest value of any choice within the capacity |
| Knapsack.TableIsBestIff | detect.c:477-520 | The table as it is filled, whose first column is never written, gives that value whatever the suspects are worth if and only if no suspect of weight 0 comes before suspects that can use up the capacity |
| Knapsack.ZeroWeightIsLost | detect.c:477-520 | Two suspects that fit together, of which the table finds one |
| Knapsack.KnapSack | detect.c:477-585 | The result is what the table gives, and the greatest value unless a weight of 0 spoils it; the processes added always fit, were not listed before, and lower the memory left by exactly their weight; if no suspect was listed before and none comes twice, they attain the result |
| SquareRoot.GetSqrt | wearleveling.c:40-58 | The root of every 64-bit number rounded down, with no sum beyond 64 bits |

## Findings

Properties that the code does not have. Each is shown by a lemma at an input or by
a clause of the contract, and the exact condition under which it holds is proved.

- The first page of a log is published tail first, head second (inode.c:2327-2329). A mount in between finds a tail without a head and cannot read the log (`TornIsUnreadable`). An operation has such an image if and only if it gave the log its first page (`Append`, `CowWrite`).
- Thorough collection copies truncations, and a copied attribute change moves the header's pointer (inode.c:2004-2006). A later chmod is then neither a truncation nor pointed at, and its page may be dropped (`ChmodAfterTruncateIsLost`, `ChmodCanBeLost`). With a right header the attributes are safe if and only if there is no attribute change, or no truncation, or the last truncation carries the attributes of the last change (`AttributesSurviveIff`).
- Truncation zeroes the last page after the commit (inode.c:1632-1645). A crash in between leaves old bytes past the end, which come back when the file grows (`StaleByteAtCommit`), unless they were zero before (`ZeroPastAtCommitIff`, `NotifyChange`).
- Removing a name marks its entry invalid before the transaction commits (dir.c:99-100). A crash in between finds the name gone though the other words of the transaction are rolled back. `RemoveDentry` returns that image: there is one if and only if the name was there.
- Whether freeing a run that overlaps a later free range is refused depends on the shape of the tree (`RefusalDependsOnShape`). A run that meets no free range is always taken, and only runs that meet one are refused (`FindFreeSlot`).
- Undo passes the address to memory with its type tag still in the top byte (journal.c:55-70, journal.c:159-163). As written it restores the words if and only if there is nothing to restore (`TaggedUndoRestoresIff`, `TaggedUndoMisses`). The other statements about the journal take the tag to be stripped.
- A suspect of weight 0 can spoil the table of the knapsack, whose first column is never filled (`ZeroWeightIsLost`); exactly when is stated by `TableIsBestIff`.
- The clean-up after a failed write never runs: `ret` is unsigned, so `ret < 0` is false (dax.c:349, dax.c:536). `CowWrite` states which blocks are lost when there is no space, and that some are if and only if the first request was met.
- Moving a page of inodes to another block does not give the old block back (wearleveling.c:300-304). `MigrateInodePage` states the free blocks afterwards: the blocks in use stay as many if and only if nothing was moved.

## Left out

- Concurrency: locks, readers during a write; in particular that other processors take blocks between two requests of one operation, so that an allocation which sequentially is all or nothing ends halfway.
- The test whether the user's buffer can be reached (dax.c:380, which as written refuses a buffer that can), and the copy from it failing halfway.
- mmap: the DRAM page cache, page faults and the write-back of dirty pages.
- Cache-line flushes and fences of the log: a store is taken to be persistent when the next one begins. In the journal, unfenced stores persist in any order; undone words are taken to be durable before their journal is emptied.
- Running out of pages in the middle of thorough collection ends in a null pointer, and an attribute change without a page in `BUG()` (inode.c:1585-1586). Both are the outcome `Stopped`; what the kernel does then is left out.
- NovaFiles.NovaFile.AppendLinkChange: commits the entry by its own store to the tail, where the source stores the tail within a journalled transaction together with other words; that transaction is `LiteJournal.TransactionForTimeAndLink`.
- NovaDirs.NovaDir.AddDentry: commits by its own store to the tail, where the source leaves that store to the journalled transaction; crashes in which the store is rolled back are those of `LiteJournal.TransactionForNewInode`.
- NovaDirs.NovaDir.RemoveDentry: commits by its own store to the tail, as `AddDentry` does; requires a name other than "." and ".."; does not model the refusal of an entry whose name differs, because two names of a directory are taken to have different hashes.
- NovaDirs.NovaDir.AppendDirInitEntries: takes the invalid flag of the two entries to be 0, which the source leaves as it was on the page.
- Directories: two names with the same hash; `readdir`; size and link count of the directory.
- The journal page may migrate after a commit; crashes during that are left out.
- Blocks that an operation takes and gives back may change lists: the pages that a thorough collection took and did not need go back run by run, which need not be where they came from. `ListsFrom` states which blocks were given back.
- Remount.UnmountAndMount: does not promise maximal runs, because ranges that were in different lists, or were saved as neighbours, are loaded without merging; nor that the first node remembered is the lowest, because the source remembers the first one loaded.
- InodeTables.InodeTable.GetInodeAddress: requires an index within the 512 entries of the mapping table, because the source reads past the table otherwise.
- Merging the per-processor bitmaps, superpages in the bitmap, and the crawl over the inode tables after a crash.
- FreeLists.FreeList.FreeBlocks: promises nothing for a run that overlaps a later range and is not refused, because the code then corrupts the list.
- InodeNumbers.InodeMap.FailureInsert: promises nothing for numbers some of which are in use and that are not refused, for the same reason.
- Knapsack.KnapSack: for suspects that are listed already, or that come twice, it promises that the processes added fit and are charged, not what they are worth, because the trace back passes over them without lowering the capacity; 32-bit overflow of the values is not modelled.
- Wear levelling beyond the above: sampling of the writes of each second, the choice of pages to migrate; overflow of the write counters.
- Time stamps; of the attributes, mode, owner and group are modelled.
- Two-megabyte and one-gigabyte blocks: a block is 4096 bytes.
