# Verification model of the DED OS file system, console input and paging

This project models the storage and console core of a small 32-bit teaching
operating system and proves what its operations guarantee. What the C code
keeps in packed structures is modelled down to the bytes on the disk, and the
methods keep its loops, branches and order of disk accesses.

The main part is the "FAT32 - IF2230 edition" driver.

* `DiskImage` is the in-memory disk: 8192 blocks of 512 bytes in one array.
  `Layout` is the packed form of the file allocation table, the directory table
  and the 15-byte index records.
* `FatDriver.Driver` is the driver: the cached table, the directory buffer and
  the disk, updated in place by `Initialize`, `Write`, `Read`, `ReadDirectory`,
  `Delete`, `SearchIndex`, `MoveToChild` and `MoveToParent`.
* `Volume` says what an image means. A `Store` names the live entries with
  their slots and cluster chains, the owner of every used cluster and the depth
  of every directory; `Inv` is the invariant that ties it to the image.
  `Uniqueness` proves that an image has at most one store, so the invariant
  speaks about the disk alone.
* `WriteEffects`, `WriteInvariant` and `DeleteEffects` give the image after a
  write or a delete as a function of the image before, and prove that the
  invariant is kept. `FileStore` proves that each request is one update of a
  plain map from (parent, name, extension) to contents. `Runs`, `Agreement`,
  `StoreCodes` and `Ownership` carry this over all sequences of requests:
  `StoreCodes.RunRefinesModel` says that over every legal run the driver reports
  the codes, and ends with the contents, that the map alone gives.
* `DiskBytes` and `Marks` say what this is on the disk, byte by byte, without the
  packed structures in between.
* `PathPrinter` is `get_dir_path`.

The other parts are the line editor behind the keyboard interrupt
(`Keyboard`, over `Framebuffer`), the shell's tokenizer that reads the delivered
line (`Tokenizer`), the shell's turn from prompt to command words, on the
keyboard and screen objects (`Shell`), the page-frame allocator (`Paging`; 4 MiB pages as in
section 4.3 of volume 3A of the Intel manual) and the memory routines
(`StdMem`; overlap as in section 7.24.2.2 of ISO C11).

## How the parts are tied together

The driver's methods are proved against functions on images: after a successful
`Write` the disk is exactly `WriteImage` of the disk before, after a successful
`Delete` it is exactly `DeleteImage`, and every other outcome leaves the disk
as it was. The theorems are then about these functions, for every image that
satisfies the invariant and for every sequence of requests.

The statements are not empty: `Creation.CreatedIsEmpty` gives a state that
satisfies the invariant for every medium, `Ownership.FirstWriteSucceeds` legal
requests in it, and `Nesting.NestReaches` runs of up to 504 requests, which make
directories one in the other under any names. The failures below are reached from
there. `Requests.Execute` carries a run out on the driver object, so what is
proved of runs holds of its disk, its store and its return codes.

What callers owe, because the C code does not check it:

* The parent handle is a cluster of the image, and a live directory or a
  cluster whose first attribute byte is not the directory mark. The code
  recognises a directory by that byte alone.
* For `delete`, and for `read` with a buffer of two clusters and more: the
  lookup does not meet a free slot first. A free slot is matched by a name and
  extension of zero bytes only, so any other key is fine; an all-zero key is
  fine exactly if its own entry, or else the end of the table, comes before the
  first free slot (`Volume.Findable`; `Volume.LookupFindsIff` proves that the
  lookup is right if and only if this holds). `write` needs no such condition,
  because its duplicate check looks at the undelete byte. Where the lookup is
  wrong it meets an entry whose cluster 0 is linked to a number outside the map
  (`Creation.ZeroKeyMeetsFreeSlot`; on every new file system the all-zero name in
  the root is such a key, `Nesting.ZeroKeyIsMistaken`): `read_directory` reports 1, `read` with a
  shorter buffer reports 2 after at most one cluster, both covered here; a longer
  `read`, and `delete`, follow the link.
* For `read`, a buffer size outside 2^31 .. 2^31 + 2047 when a file is met: the
  source computes with the size as an `int`, and reducing these by a cluster
  overflows it. Larger sizes are negative there, and reported as too short.
* Enough data clusters for a write that passes the space check.
  `Creation.AllocatorFailsIff` gives the exact condition under which the check
  passes and the allocator then fails; `Creation.OversizedFilePasses` is a
  request on a new file system that does so.
* Fewer than 512 index records before an insert, and at most 512 before a
  removal, so that the in-memory table is not overrun. While index and tree
  agree the count is at most 409, so there is always room.

While index and tree agree, what callers of `write` and `delete` owe can be told
from the plain map (`StoreCodes.LegalFromStoreIff`).

What the code does differently from what its comments promise:

* `delete` is documented to refuse a directory that is not empty. It never
  does: `write` marks slot 0 of the directory's own table, `delete` tests the
  entry in the table above (`Marks.ReachableIsMarked`, `Marks.TestedMarkIsClear`,
  `DeleteEffects.DeleteCodeIff`).
  `Uniqueness.MeaningSurvivesDeleteIff` proves the consequence both ways: after
  the delete some store still describes the image if and only if the entry was
  a file or a directory without live entries. `Counterexample` is a run of
  three requests that gets there on every medium.
* The index table is meant for 512 records; only records below 409 survive a
  store, exactly (`IndexFile.RecordPersistsIff`). So index and tree stay in
  agreement over a run if and only if every successful write of it finds fewer
  than 409 entries (`Agreement.AlwaysAgreesIff`). After n nested directories
  they agree if and only if n is at most 409 (`Nesting.NestAgreesIff`). A delete
  undoes a write, whatever the stack holds, under the same condition
  (`Agreement.DeleteUndoesWriteIff`).
* `get_dir_path` prints the right path if and only if no directory above the
  given one has a name starting with a zero byte
  (`PathPrinter.PathIsRightIff`). Two requests on any medium lead to a directory
  whose path is printed wrongly (`Nesting.PathIsPrintedWrongly`).
* `get_dir_path` keeps the names in 256 bytes. They suffice if and only if the
  directory lies at most 31 levels deep, and directories up to 504 levels deep
  can be made (`Nesting.DepthReachedIff`).

The uninitialised part of the local index table is a parameter (`Stack`) of the
operations that read it, so every statement holds whatever the stack held.

## Model

| member | source | states |
|---|---|---|
| StdMem.MemSet | src/stdmem.c:4-9 | exactly the n bytes from the offset on become c |
| StdMem.MemCpy | src/stdmem.c:11-17 | without overlap the destination range gets the source bytes, all else stays |
| StdMem.MemMove | src/stdmem.c:32-44 | under any overlap the destination range gets the bytes the source range held before |
| StdMem.MemCmp | src/stdmem.c:19-30 | -1 exactly if at the first difference the first string has the smaller byte, 1 exactly if it has the larger, 0 exactly on equal strings |
| StdMem.CompareIsOrder | src/stdmem.c:19-30 | comparison is antisymmetric and transitive; it is 0 exactly on equal strings |
| Layout.FatRoundTrip | src/lib-header/fat32.h:86-88 | a table stored in a cluster is read back unchanged |
| Layout.FatBytesRoundTrip | src/lib-header/fat32.h:86-88 | every cluster is the packed form of the table it is read as |
| Layout.LinkBytes | src/lib-header/fat32.h:86-88 | link i is the four bytes from 4i on, the low one first |
| Layout.TableRoundTrip | src/lib-header/fat32.h:110-131 | a directory table stored in a cluster is read back unchanged |
| Layout.TableBytesRoundTrip | src/lib-header/fat32.h:110-131 | every cluster is the packed form of the directory table it is read as |
| Layout.EntryFields | src/lib-header/fat32.h:110-126 | which of the 32 bytes of a slot make up each field, the low byte of a number first |
| Layout.RecordFields | src/lib-header/fat32.h:68-72 | which of the 15 bytes of an index record make up each field |
| DiskImage.Disk.ReadBlocks | src/inserter/external-inserter.c:34-37 | the buffer range gets the addressed blocks, the rest stays |
| DiskImage.Disk.WriteBlocks | src/inserter/external-inserter.c:39-42 | the addressed blocks get the buffer bytes, the rest of the image stays |
| DiskImage.Disk.ReadClusters | src/filesystem/fat32.c:110-112 | whole clusters land one after the other in the buffer |
| DiskImage.Disk.WriteClusters | src/filesystem/fat32.c:98-100 | exactly the addressed clusters of the image change |
| Allocation.FreeIsComplete | src/filesystem/fat32.c:208-217 | the free list holds every free cluster, in increasing order |
| Allocation.LinkAt | src/filesystem/fat32.c:294-301 | after allocation each cluster links to the next, the last holds 0x0FFFFFFF, all other entries stay |
| Allocation.FirstFit | src/filesystem/fat32.c:208-217 | n clusters are the n least free ones from 8 up, linked in increasing order, and exactly the others remain free |
| Allocation.FreePlusUsed | src/filesystem/fat32.c:208-217 | free plus used clusters make up the whole range |
| IndexFile.SaveKeepsRecords | src/filesystem/fat32.c:504-515 | records straddling cluster boundaries survive the three-cluster store |
| IndexFile.RecordPersistsIff | src/lib-header/fat32.h:68-76 | a record is read back whatever the stack holds exactly when its index is below 409 |
| IndexFile.InsertedRecord | src/filesystem/fat32.c:504-515 | insertion appends one record, of which the stored part is listed, and changes only index clusters and count |
| IndexFile.InsertedBytes | src/filesystem/fat32.c:504-515 | the 15 bytes of record n become name, extension and parent; every other byte of the index clusters stays |
| IndexFile.AgreesIff | src/lib-header/fat32.h:68-76 | the records read back are the given keys whatever the stack holds exactly when there are at most 409 and the stored ones are the keys |
| IndexFile.InsertKeepsAgreementIff | src/filesystem/fat32.c:504-515 | inserting a new key keeps the index equal to the key set exactly while fewer than 409 records are in place |
| IndexFile.RemovedRecord | src/filesystem/fat32.c:535-561 | for every count the table can hold, removal takes the first matching record and keeps the order of the rest, of which the stored part is listed; only index clusters and count change |
| IndexFile.WithoutFirst | src/filesystem/fat32.c:540-556 | of several equal records only the first is removed |
| IndexFile.RemovedBytes | src/filesystem/fat32.c:540-556 | the records behind the first match move down by 15 bytes; every other byte of the index clusters stays |
| IndexFile.DeleteKeepsAgreement | src/filesystem/fat32.c:535-561 | removing a listed key keeps the index equal to the key set |
| IndexFile.ParentsMembers | src/filesystem/fat32.c:518-533 | the found parents are exactly those of matching records, without duplicates when records are distinct |
| IndexFile.ParentsSplit | src/filesystem/fat32.c:522-531 | the parents are found record by record, in order |
| IndexFile.SearchFindsAll | src/filesystem/fat32.c:518-533 | under agreement a search names exactly the directories holding such an entry, each once, whatever the stack holds |
| Volume.LookupFindsIff | src/filesystem/fat32.c:172-176 | for every key: a lookup, which ignores the undelete byte, gives the slot of a live key and the end for any other if and only if no matching free slot comes before |
| Volume.UsedSlot | src/filesystem/fat32.c:255-261 | in a live directory a slot is free exactly when it is all zero |
| Volume.FreePlusOwned | src/filesystem/fat32.c:208-217 | in clusters 8..511 free plus owned is always 504 |
| WriteEffects.ContentsEffect | src/filesystem/fat32.c:277-301 | the new clusters hold the data in order, or the new directory table, and no other cluster changes |
| WriteEffects.WriteEffect | src/filesystem/fat32.c:266-307 | table, parent directory and contents after a write; all other clusters from 6 up stay |
| DiskBytes.WrittenParent | src/filesystem/fat32.c:255-291 | the parent's cluster after a write: byte 12 is 0xAA, the first slot with a clear byte 13 holds the 32 bytes of the entry, every other byte stays |
| DiskBytes.WrittenDirectory | src/filesystem/fat32.c:36-43 | the cluster of a new directory: name, mark and link to the parent in slot 0, zeros elsewhere |
| WriteInvariant.DuplicateIffLive | src/filesystem/fat32.c:231-241 | the duplicate check fires exactly for live keys |
| WriteInvariant.NewItemFacts | src/filesystem/fat32.c:255-275 | a write takes a free slot and clusters nobody owns |
| WriteInvariant.WriteKeepsInvariant | src/filesystem/fat32.c:220-308 | a successful write keeps the invariant and adds exactly one item |
| DeleteEffects.WalkFollowsChain | src/filesystem/fat32.c:350-358 | following links from any cluster of a chain visits the rest of the chain |
| DeleteEffects.DeleteEffect | src/filesystem/fat32.c:334-368 | table, parent directory and zeroed clusters after a delete; all other clusters from 6 up stay |
| DiskBytes.DeletedParent | src/filesystem/fat32.c:386-394 | the parent's cluster after a delete: the 32 bytes of the entry are zero, every other byte stays |
| DeleteEffects.RemoveKeepsTreeIff | src/filesystem/fat32.c:329-344 | the directory tree survives exactly when a file or an empty directory is removed |
| DeleteEffects.DeleteCodeIff | src/filesystem/fat32.c:326-333 | delete succeeds exactly on live keys; the not-empty code never occurs |
| DeleteEffects.DeletedItem | src/filesystem/fat32.c:345-365 | the released clusters are exactly the entry's chain and the cleared slot is exactly its own |
| DeleteEffects.DeleteKeepsInvariantIff | src/filesystem/fat32.c:317-374 | after a delete the invariant holds for the remaining items exactly when the entry was a file or an empty directory |
| Uniqueness.StoreIsUnique | src/filesystem/fat32.c:36-43 | an image satisfies the invariant for at most one store |
| Uniqueness.MeaningSurvivesDeleteIff | src/filesystem/fat32.c:330-344 | after a delete some store describes the image exactly when the entry was a file or an empty directory |
| FileStore.WriteRefines | src/filesystem/fat32.c:220-308 | a successful write is one map update: the padded bytes or a directory under the new key, all other contents unchanged |
| FileStore.DeleteRefines | src/filesystem/fat32.c:317-374 | a successful delete is one map removal and zeroes every cluster of the entry |
| FileStore.TableListsChildren | src/filesystem/fat32.c:125-153 | a name and extension occur in a directory's table exactly when the entry is live, or they are all zero and a slot is free |
| DiskBytes.LiveInBytes | src/filesystem/fat32.c:231-241 | a key is live exactly when its 11 bytes begin a slot from 1 on whose byte 13 is not zero |
| Marks.ReachableIsMarked | src/filesystem/fat32.c:274 | in every state reached from creation a directory with a live entry has 0xAA at byte 12 of its own table |
| Marks.TestedMarkIsClear | src/filesystem/fat32.c:330-332 | the byte delete tests, in the entry of the table above, is 0 for every live entry |
| FileStore.ReadStaysInside | src/filesystem/fat32.c:181-197 | nothing is written behind the given buffer size, and nothing at all if it is negative as an int |
| Runs.StepKeepsInvariant | src/filesystem/fat32.c:220-374 | every legal request keeps the invariant |
| Runs.StepRefines | src/filesystem/fat32.c:220-374 | every legal request is one step of the plain map |
| Runs.StepKeepsOtherTables | src/filesystem/fat32.c:125-153 | the table of every other surviving directory stays byte for byte, so reading it gives the same |
| Runs.RunKeepsInvariant | src/filesystem/fat32.c:220-374 | every state of every legal run satisfies the invariant |
| Runs.RunKeepsOthers | src/filesystem/fat32.c:125-374 | a key no request names keeps its content, or stays absent, through any run |
| Runs.RunKeepsOtherTables | src/filesystem/fat32.c:125-153 | over a run, a directory that stays live and that no request names as parent keeps its table byte for byte |
| Runs.UnnamedDirectoryKeepsTable | src/filesystem/fat32.c:125-153 | a directory that no request names, itself or as parent, is still there on the same cluster with the same table |
| Runs.RoundTrip | src/filesystem/fat32.c:290-303 | a written file holds its bytes, in whole clusters, after any run on other keys |
| Runs.WrittenBytesReadBack | src/filesystem/fat32.c:181-197 | reading it then with a large enough buffer succeeds and returns the written bytes |
| Agreement.CountIsLiveEntries | src/filesystem/fat32.c:495-515 | under agreement the count is the number of live entries |
| Agreement.WriteKeepsIndexIff | src/filesystem/fat32.c:306 | a write keeps index and tree in agreement exactly when fewer than 409 entries exist |
| Agreement.DeleteKeepsIndex | src/filesystem/fat32.c:335-348 | a delete always keeps index and tree in agreement |
| Agreement.RunKeepsAgreement | src/filesystem/fat32.c:504-561 | index and tree agree after every run whose writes find fewer than 409 entries |
| Agreement.AlwaysAgreesIff | src/filesystem/fat32.c:504-561 | index and tree agree in every state of a run exactly when every successful write of it finds fewer than 409 entries |
| Agreement.SearchAfterRun | src/filesystem/fat32.c:518-533 | a search after such a run names exactly the directories with a matching live entry, whatever the stack holds |
| Agreement.DeleteUndoesWriteIff | src/filesystem/fat32.c:220-374 | write then delete restores the store; under agreement it restores, whatever the stack holds, the file allocation table with the count and the parent's slots byte for byte and the records, and zeroes the clusters, exactly if fewer than 409 entries were in place; all-zero keys included |
| StoreCodes.DirectoryFullIff | src/filesystem/fat32.c:255-264 | a directory has no free slot exactly when 63 live entries name it as parent |
| StoreCodes.FreeClustersFromStore | src/filesystem/fat32.c:208-217 | the free data clusters are 504 less the clusters of all contents of the map |
| StoreCodes.WriteCodeFromStore | src/filesystem/fat32.c:225-264 | the return code of every write in a live directory, legal or not, follows from the plain map and from whether the index count is 0 |
| StoreCodes.CodesFromStore | src/filesystem/fat32.c:225-333 | the return code of every legal write or delete is a function of the plain map alone |
| StoreCodes.AllocatableFromStore | src/filesystem/fat32.c:266-299 | whether the allocator serves a whole write can be told from the map |
| StoreCodes.LegalFromStoreIff | src/filesystem/fat32.c:220-374 | under agreement the plain map tells which requests are legal: it is sufficient, and for writes and for deletes of names that are not all zero also necessary |
| StoreCodes.RunRefinesModel | src/filesystem/fat32.c:220-374 | over every legal run, whatever becomes of the index, the reported codes and the final contents are those of a run of the plain map, which decides its codes itself |
| Creation.CreatedIsEmpty | src/filesystem/fat32.c:61-88 | on any medium a new file system is empty, satisfies the invariant and has 504 free clusters |
| DiskBytes.SignatureInCharacters | src/filesystem/fat32.c:5-13 | the signature block: five lines of text, zeros, and "Ok" |
| DiskBytes.NewLinks | src/filesystem/fat32.c:61-74 | cluster 1 of a new file system, byte by byte |
| DiskBytes.NewRoot | src/filesystem/fat32.c:376-384 | cluster 2 of a new file system, byte by byte |
| Creation.SpaceCheckOvercounts | src/filesystem/fat32.c:243-253 | the space check counts exactly clusters 6, 7 and, with an empty index, 3 too many |
| Creation.AllocatorFailsIff | src/filesystem/fat32.c:243-266 | when the check passes and the allocator then fails, exactly; enough free data clusters are never reported short |
| Creation.OversizedFilePasses | src/filesystem/fat32.c:243-253 | a concrete request on a new file system that passes the check but cannot be allocated |
| Creation.ZeroKeyMeetsFreeSlot | src/filesystem/fat32.c:171-193 | where a lookup is wrong, the key is all zero and the slot met is a free one, not a directory, whose cluster 0 is linked outside the map |
| Ownership.InvariantPartitions | src/filesystem/fat32.c:208-217 | used data clusters are exactly the disjoint union of the live chains |
| Ownership.ReachableIsPartitioned | src/filesystem/fat32.c:80-374 | so in every state reached from creation, with the reserved entries as created and free plus owned 504 |
| Ownership.ReachableAgrees | src/filesystem/fat32.c:495-561 | from creation on index and tree agree and the count is the number of live entries |
| Ownership.ReachableRefinesModel | src/filesystem/fat32.c:80-374 | over every legal run from creation the driver reports and keeps what the plain map does from empty |
| Ownership.FirstWriteSucceeds | src/filesystem/fat32.c:220-308 | on a new file system any directory or file of at most 504 clusters can be written in the root |
| Counterexample.DirectoryIsMade | src/filesystem/fat32.c:277-288 | where there is room a directory is made on the least free cluster, with an empty table linked to its parent |
| Counterexample.AHoldsB | src/filesystem/fat32.c:277-288 | on any medium two requests lead to a state with directory "b" in directory "a" and two index records |
| Counterexample.NonEmptyDirectoryIsDeleted | src/filesystem/fat32.c:330-344 | on any medium: make "a", make "b" in it, delete "a"; the delete reports success and no store describes what is left |
| Nesting.NestReaches | src/filesystem/fat32.c:220-308 | on any medium directories can be made one in the other under any names, up to 504; the way up from the deepest gives the names |
| Nesting.NestAgreesIff | src/filesystem/fat32.c:504-515 | after n of them index and tree agree exactly if n is at most 409 |
| Nesting.IndexIsLost | src/filesystem/fat32.c:504-515 | 410 legal requests on any medium, after which index and tree no longer agree |
| Nesting.UndoIsLost | src/filesystem/fat32.c:535-561 | 409 legal requests on any medium, after which for some stack a delete does not undo the making of a directory |
| Nesting.NestedPathIsRightIff | src/filesystem/fat32.c:396-425 | for any names a run makes them the path of a directory; it is printed right exactly when no name above the deepest starts with a zero byte |
| Nesting.PathIsPrintedWrongly | src/filesystem/fat32.c:410-424 | two requests on any medium that lead to a directory whose path is printed wrongly |
| Nesting.DepthReachedIff | src/filesystem/fat32.c:397-413 | every depth up to 504 is reached; the bytes get_dir_path looks at lie in its buffer exactly up to depth 31 |
| Nesting.UnfindablePasses | src/filesystem/fat32.c:326-333 | a delete whose lookup meets a free slot first passes every check |
| Nesting.ZeroKeyIsMistaken | src/filesystem/fat32.c:326-333 | on every new file system the all-zero name in the root is no entry, but a lookup meets a free slot for it and delete takes that for a file |
| Requests.Request | src/interrupt/interrupt.c:67-72 | one write or delete on the driver is one step: code, disk and store |
| Requests.Execute | src/interrupt/interrupt.c:67-72 | any legal sequence of them on the driver reports the codes and leaves the disk and store of the run; codes and contents are those of the plain map's run |
| FatDriver.Driver.constructor | src/filesystem/fat32.c:15-16 | a driver state of fresh arrays, all zero |
| FatDriver.Driver.IsEmpty | src/filesystem/fat32.c:50-54 | true exactly when the first block is not the signature |
| FatDriver.Driver.CreateFat32 | src/filesystem/fat32.c:61-74 | the reserved entries and the signature block, nothing else |
| FatDriver.Driver.InitializeRoot | src/filesystem/fat32.c:376-384 | the root table in cluster 2 |
| FatDriver.Driver.InitIndexFile | src/filesystem/fat32.c:495-502 | count 0 and two further reserved entries, cached and stored |
| FatDriver.Driver.Initialize | src/filesystem/fat32.c:80-88 | a valid driver: a new empty file system, or the cached table of the existing one |
| FatDriver.Driver.InsertRecord | src/filesystem/fat32.c:504-515 | the image is the one insertion gives, and the cache agrees with it |
| FatDriver.Driver.SearchIndex | src/filesystem/fat32.c:518-533 | the buffer gets the parents of all matching records in order, and no more, for every count the table can hold |
| FatDriver.Driver.DeleteRecord | src/filesystem/fat32.c:535-561 | the image is the one removal gives, and the cache agrees with it |
| FatDriver.RemoveFirst | src/filesystem/fat32.c:540-556 | the first matching record is removed by shifting, the rest of the table stays |
| FatDriver.CollectParents | src/filesystem/fat32.c:522-531 | the search loop over the first n records |
| FatDriver.CountFree | src/filesystem/fat32.c:244-250 | the early-stopping count falls short exactly when the full count does |
| FatDriver.FindFreeEntry | src/filesystem/fat32.c:255-261 | the first slot from 1 with a clear undelete byte, or -1 |
| FatDriver.FindDuplicate | src/filesystem/fat32.c:231-241 | whether an entry in use has this name and extension |
| FatDriver.FindEntry | src/filesystem/fat32.c:326-329 | the first slot from 1 with this name and extension, or 64 |
| FatDriver.Driver.GetEmptyCluster | src/filesystem/fat32.c:208-217 | the least free data cluster, marked as end; -1 and no change if there is none |
| FatDriver.Driver.WriteFile | src/filesystem/fat32.c:294-301 | the loop links the n least free clusters and fills them with the buffer in order |
| FatDriver.Driver.Write | src/filesystem/fat32.c:220-308 | return code, whole disk, store and plain map afterwards; in the parent's cluster byte 12 becomes 0xAA and the new slot gets the 32 bytes of the entry, nothing else changes; 2 for a parent that is no directory; other outcomes leave the disk unchanged; cache and invariant kept |
| FatDriver.Driver.ReleaseChain | src/filesystem/fat32.c:350-365 | the walk zeroes and frees every cluster of the chain and nothing else, and resets the entry |
| FatDriver.Driver.Delete | src/filesystem/fat32.c:317-374 | -1, 0 or 1 for no directory, a live key, or none; whole disk and store afterwards, with the 32 bytes of the slot zeroed; the driver stays valid exactly if nothing was deleted or the entry was a file or an empty directory |
| FatDriver.Driver.ReadChain | src/filesystem/fat32.c:181-197 | short buffers get exactly the whole clusters that fit; otherwise the file and one 0xFF byte exactly when the buffer is longer |
| FatDriver.Driver.Read | src/filesystem/fat32.c:161-206 | return code and buffer are those of the plain map, or, where a free slot is met, code 2 and at most cluster 0; the disk stays as it is |
| FatDriver.ReadMeans | src/filesystem/fat32.c:181-205 | when read returns 0, 1, 2 and 3, and every byte of the buffer afterwards, with the 0xFF behind a file exactly if there is room |
| FatDriver.ReadElsewhere | src/filesystem/fat32.c:161-197 | the code and every byte of the buffer for a parent that is no directory, and where a free slot is met |
| FatDriver.Driver.ReadDirectory | src/filesystem/fat32.c:125-153 | 0, 1 or 2 from the plain map, -1 for no directory, 1 where a free slot is met; the buffer then holds the directory's table, in which a key is live exactly when its 11 bytes begin a used slot |
| FatDriver.Driver.MoveToChild | src/filesystem/fat32.c:474-487 | the cluster of the live entry with extension "dir", or 0 |
| FatDriver.Driver.MoveToParent | src/filesystem/fat32.c:489-493 | the directory holding the entry, one level up; the root for the root |
| FatDriver.HeaderOfDirectory | src/filesystem/fat32.c:36-43 | slot 0 of a live directory names it and links to the table holding its entry, one level up |
| PathPrinter.PathIsRightIff | src/filesystem/fat32.c:410-424 | the printed path is right exactly when no directory above has a name starting with a zero byte |
| PathPrinter.PathOfTwo | src/filesystem/fat32.c:410-424 | the path of "b" in "a", byte by byte |
| PathPrinter.ZeroByteLosesCharacter | src/filesystem/fat32.c:411-420 | a name of a zero byte and "b" below the root costs the path of every directory in it one character |
| PathPrinter.CopyName | src/filesystem/fat32.c:411-417 | the non-zero ones of nine bytes are copied in order |
| PathPrinter.GetDirPath | src/filesystem/fat32.c:396-425 | the walk ends, and the buffer holds the text for the names on the way to the root, then a zero |
| Framebuffer.TextAppears | src/framebuffer.c:114-118 | text without line breaks that fits appears as it is and changes nothing else |
| Framebuffer.LineFeed | src/framebuffer.c:104-108 | a line feed writes nothing and goes to the start of the next row, on the last row to the start of that row |
| Framebuffer.PutOneChar | src/framebuffer.c:109-112 | any other character takes the cell at the cursor, which goes one on and stops at the last cell |
| Framebuffer.LinesAppear | src/framebuffer.c:114-118 | while the rows suffice each line of a text stands from the start of its own row, and no other cell changes |
| Framebuffer.Screen.SetCursor | src/framebuffer.c:6-13 | the two register bytes hold the linear position |
| Framebuffer.Screen.WriteAtCursor | src/framebuffer.c:99-102 | the write lands in the cell at the cursor, always on the screen |
| Framebuffer.Screen.MoveLeft | src/framebuffer.c:51-60 | one cell back on the linear position, stopping at the first |
| Framebuffer.Screen.MoveRight | src/framebuffer.c:63-72 | one cell on, stopping at the last |
| Framebuffer.Screen.Puts | src/framebuffer.c:114-118 | the fold of putchar over the text; a length above 2^31 prints nothing |
| Keyboard.EditorRefinesLine | src/keyboard/keyboard.c:56-97 | for every key sequence within 255 characters the buffer before the index is the edited line |
| Keyboard.CodesInCharacters | src/keyboard/keyboard.c:6-16 | the rows of the scancode map, in characters |
| Keyboard.SomeKeys | src/keyboard/keyboard.c:6-16 | the codes of "l", "s", Enter, backspace and space |
| Keyboard.TypedLaws | src/keyboard/keyboard.c:66-91 | a character is appended, backspace takes it back, unmapped keys and backspace on an empty line do nothing |
| Keyboard.BufferWhileTyping | src/keyboard/keyboard.c:74-88 | the whole buffer while a line is typed: the line, the character dropped last if any, and zeros |
| Keyboard.BackspaceIsNeverBlocked | src/keyboard/keyboard.c:74-85 | wherever a line began and whatever was typed since, with characters pending the cursor is not at the first cell and backspace deletes the last one |
| Keyboard.LineIsDelivered | src/keyboard/keyboard.c:44-97 | after Enter the buffer is the edited line, a line feed and zeros, whatever keys follow |
| Keyboard.SessionDelivers | src/interrupt/interrupt.c:73-81 | over any number of lines, with any keys in between and any screen, each buffer handed over is that line as edited, a line feed and zeros |
| Keyboard.FullLineWraps | src/keyboard/keyboard.c:86-88 | a 256th character wraps the index and Enter then replaces the first character |
| Keyboard.EchoFollowsLine | src/keyboard/keyboard.c:81-91 | wherever it began, while the line stays short of the last cell it stands on the screen as edited, before the cursor |
| Keyboard.ScreenWhileTyping | src/keyboard/keyboard.c:74-91 | the whole screen while a line is typed: the line, a space under the cursor, zeros as far as the line once reached, all else as before |
| Keyboard.EnterOnScreen | src/keyboard/keyboard.c:66-73 | Enter puts a space at the start of the next row and the cursor there; on the last row the screen stays |
| Keyboard.NextOutputHasItsOwnRow | src/keyboard/keyboard.c:66-73 | after Enter the line still stands, and the text printed next stands in a row of its own below |
| Keyboard.KeyboardDriver.Isr | src/keyboard/keyboard.c:56-97 | one interrupt is one step of the editor, with its effect on the screen; while input is off it only resets the index |
| Keyboard.KeyboardDriver.GetBuffer | src/keyboard/keyboard.c:45-49 | the buffer is handed over, then cleared |
| Keyboard.KeyboardDriver.Activate | src/keyboard/keyboard.c:34-37 | input is on, and a fetched buffer starts a new line |
| Tokenizer.GetWord | src/user-shell.c:45-58 | on a delivered line it stops at the start of the n-th word, so that just the words from the n-th on follow, or at the line feed |
| Tokenizer.Length | src/user-shell.c:33-37 | the length of the run of non-blank bytes there |
| Tokenizer.AtWord | src/user-shell.c:33-58 | at that position the run of non-blank bytes is the n-th word; without an n-th word it is the line feed |
| Tokenizer.OnlyOnePlace | src/user-shell.c:45-58 | there is only one such position, even if the line holds the same word several times |
| Tokenizer.WordsKeepEverything | src/user-shell.c:28-31 | the words hold every non-blank byte of the line in order, and no blank |
| Tokenizer.BlankSeparates | src/user-shell.c:28-31 | a space or a zero byte separates the words before it from those behind |
| Tokenizer.OneWord | src/user-shell.c:28-31 | a run without space and zero byte is one word |
| Shell.Press | src/keyboard/keyboard.c:56-97 | any sequence of interrupts on the keyboard object is the editor's run over the keys |
| Shell.ReadLine | src/interrupt/interrupt.c:73-81 | one waiting read on the keyboard object hands over the line as edited, a line feed and zeros, and leaves the keyboard ready for the next |
| Shell.TakeWord | src/user-shell.c:33-58 | get_word and length together give the n-th word of the line, or nothing |
| Shell.TakeCommand | src/user-shell.c:235-241 | command and arguments are the first three words of the line; it is refused exactly if there is a fourth |
| Shell.TakeTurn | src/user-shell.c:226-241 | one turn, from prompt to words, is one line of the editor's session: the prompt is printed, then the keys are echoed, and the words are those of the line as edited |
| Shell.RunShell | src/user-shell.c:226-241 | over any number of turns each takes the words of its own line |
| Paging.RunsIsolate | src/paging/paging.c:32-57 | over all runs exactly the first 30 calls succeed, and present user slots have distinct frames, never frame 0 |
| Paging.CallGetsOwnFrame | src/paging/paging.c:32-57 | call n succeeds exactly when n is below 30 and maps frame n + 1 |
| Paging.AllocatedEntry | src/paging/paging.c:32-57 | a successful call makes its slot a present, writable 4 MiB user page on the next frame, with no other flag set |
| Paging.SlotOfAddress | src/paging/paging.c:24-26 | the slot of an address is the 4 MiB page it lies in |
| Paging.KernelSurvivesIff | src/paging/paging.c:3-18 | the kernel's mapping survives exactly the runs whose successful calls avoid its slot |
| Paging.PageDriver.UpdateEntry | src/paging/paging.c:24-30 | exactly the addressed entry changes, to the given frame and flags |
| Paging.PageDriver.AllocateUserFrame | src/paging/paging.c:32-57 | one call is one allocation step |
| Paging.PageDriver.constructor | src/kernel_loader.s:51 | the directory after slot 0 was cleared |

## Left out

- The ATA port protocol, port input and output, interrupt acknowledgement, descriptor tables, TLB flushing and assembly: hardware effects. The array disk and a two-byte cursor register stand for them.
- `framebuffer_clear` and `show_file`: a fill and a variant of `puts`.
- Colours of the text screen, timestamps, file sizes and `cluster_buf`: written or unused, never read back.
- `get_children`: its output does not determine the listing.
- The rest of the shell (`cd`, `relative_cd`, `copy`, `remove`, and what `main` does with a command): some of its paths return uninitialised values.
- `read_blocks` on a failing medium, and the state of the disk in the middle of an operation: only completed operations are modelled.
- Cluster handles of 2048 and more: they lie outside the image, or alias a cluster because the block address wraps in 32 bits.
- Images not produced by this driver: an existing file system is assumed to satisfy the invariant.
- FatDriver.Driver.Write: a write that passes the space check while the data clusters run short is excluded, because the source then addresses cluster number 2^32 - 1: outside the disk, and for files outside the map.
- FatDriver.Driver.Read: sizes of 2^31 to 2^31 + 2047 are excluded when a file is met, because subtracting a cluster from them overflows an `int`; so is a free slot met with room for two clusters, because the link followed there is no index of the map.
- FatDriver.Driver.Delete: a free slot met before the entry is excluded, because the link of cluster 0 is no index of the map.
- PathPrinter.GetDirPath: depth above 31 is excluded, because the 256-byte scratch buffer is then overrun.
- FatDriver.Driver.SearchIndex: counts above 512 are excluded, because the loop then leaves the table.
