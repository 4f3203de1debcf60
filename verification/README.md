# Minirel in Dafny

A model of the storage engine and the relational operators of Minirel
(`p5-Minirel_Query_and_Update_Operators/stage6`), with proofs.  It has five layers.  The heap
file keeps the discipline that the buffer manager needs from its clients, and the operators, the
catalog and the sort run on heap files; page and heap file, and heap file and buffer manager, are
tied by lemmas and contracts and not put together into one program:

1. **Slotted page** - `Page.dfy` has the page as a value (record bytes, slots, free space) and what
   its operations do; `PageBytes.dfy` performs them in place on the 1008 bytes that records and the
   backwards growing slot array share, and is proved equal to the value.
2. **Files and buffer pool** - `File.dfy` is the free list threaded through the pages of a file,
   `BufHash.dfy` the chained hash table with its linked buckets, `Clock.dfy` what a sweep of the
   clock finds (and the one step shorter clock of `p3-Buffer_Manager_for_DBMS/stage3`),
   `ClockRun.dfy` what its reference bits protect over runs, `BufState.dfy` the pool as a value,
   `BufMgr.dfy` the buffer manager itself, and `BufRun.dfy` any run of its clients against a plain map.
3. **Heap file** - `HeapSpec.dfy` and `HeapGrowth.dfy` give the file as a list of records in chain
   and slot order and what deleting and inserting do to it; `HeapStore.dfy`, `HeapScan.dfy` and
   `HeapInsert.dfy` are the file, `HeapFileScan` and `InsertFileScan`; `HeapRun.dfy` has any mix of
   their operations, and `HeapLedger.dfy` the heap file as a client of the buffer manager.
4. **Operators and catalog** - `Floats.dfy` (floats by their bits), `Filter.dfy` (matchRec),
   `ScanRuns.dfy` (whole runs of a filtered scan), `Delete.dfy`, `Select.dfy`, `Join.dfy`,
   `Insert.dfy`, `Schema.dfy` (record layout), `Catalog.dfy`, `Create.dfy`,
   `Catalogs.dfy` (the two catalogs together).
5. **Sorting and hashing** - `Sort.dfy` (comparison and merging of lists), `SortRuns.dfy` (the runs
   of a sort as values), `RunFile.dfy` (one run over its heap file), `MakeRuns.dfy` (splitting the
   source into run files), `ExtSort.dfy` (the sorted file with its mark), `JoinHT.dfy`.

`Bytes.dfy` has status codes and little-endian integers, `Sequences.dfy` lists.  Where the source
changes an object step by step the model is a class with those fields and methods; each class is
tied by its contracts to a value, and the properties are lemmas about the values.

Words used below: a *listing* is the list of records, each with its RID, as an unfiltered scan meets
them; a record is *behind the insertion point* if it stands in a higher slot of the last page than
the one the next insertion will take.

Three habits of the proofs.  A quantifier in an invariant has a named predicate as its trigger, and
some predicates hide their meaning behind a quantifier over one value, so that it is unfolded only
where it is asked for.  Pins are counted page by page: `OtherPins(n)` are the pins on page n that an
object does not hold itself, and `Conserved()` says that an operation left these alone and leaves no
page it changed without a promise to unpin it dirty.  Every lemma turns automatic induction off.

## What the code does that its comments do not say

The model follows the code.

- `allocBuf` of stage 3 also gives up when a frame is unpinned: the one under the hand, if it was
  referenced and is the only one.
- `disposePage` of a file does not notice that a page is free already and then makes the free list
  cyclic; `disposePage` of the buffer manager drops a cached page before the file refuses it, and
  `allocPage` leaves a page allocated when no frame can be had for it.
- `readPage` evicts a page before it finds out that the file does not have the one it was asked for; the frame goes
  on naming the page that was evicted.
- `insertRecord` accepts records of 1001 to 1004 bytes that no page can take, and adds an empty page
  each time.  Records of length 0 are stored but stop every scan.
- `deleteRecord` of a scan lowers the record count even if there is nothing to delete.
- A scan used again after `endScan` gives up if the first page is empty.
- `QU_Delete` returns without closing its scan when the condition is refused.
- `createRel` looks at the length of an attribute name only after entries were made, and leaves two catalogs that
  contradict each other.  It adds the lengths up in 32 bits, so that a sum of 2 to the power of 32 looks like 0.
- `resetScan` to a mark that was set while no page was current asks for a page that does not exist, and leaves the scan with a page it has
  given back.
- `setMark` before the first `next()` marks the end of the sorted file.
- A join checks the types and lengths in its arguments, which are -1 in every call the program makes, and not
  those in the catalog.  So it is never refused for its types, and an int attribute is compared with a string one by bytes.
- In a join of a relation with itself all attributes are taken from the outer record.
- Floats are compared by their difference: an infinity is not equal to itself, and NaN is equal to nothing but
  passes NE.
- An insertion copies as many bytes as the attribute has, so a string shorter than that is read past its end; what
  is behind its NUL then goes into the record.
- `createRel` accepts relations 1001 to 1024 bytes wide; inserting into one stops the program at insert.C:104.
- The hash function of the join table gives 0 for every integer unless the product overflows.

## Model

| member | source | states |
|---|---|---|
| `SlottedPage.AddExact` | p5-Minirel_Query_and_Update_Operators/stage6/page.C:55-105 | insertRecord stores one new record under the lowest free slot number and touches no other: the page as a map from slot numbers to bytes gains exactly that entry |
| `SlottedPage.RemoveExact` | p5-Minirel_Query_and_Update_Operators/stage6/page.C:111-189 | deleteRecord removes its target alone: after the byte shift, the offset rewrite and the slot trimming every other slot number still has its bytes |
| `SlottedPage.RemoveExtent` | p5-Minirel_Query_and_Update_Operators/stage6/page.C:152-159 | a record that is not deleted has the same bytes although its extent may have moved down |
| `SlottedPage.RemoveSlot` | p5-Minirel_Query_and_Update_Operators/stage6/page.C:157-184 | after a delete the live slots are those before but one, and each offset is lowered by the length of the hole exactly if it lay above it |
| `SlottedPage.GetRecordExact` | p5-Minirel_Query_and_Update_Operators/stage6/page.C:241-254 | getRecord answers from the map of records, and refuses free slots and records of length 0 |
| `SlottedPage.SpaceExact` | p5-Minirel_Query_and_Update_Operators/stage6/page.C:58-89 | freeSpace is, to the byte, what the records and the slot array leave of the 1004 bytes |
| `SlottedPage.InsertRefines` | p5-Minirel_Query_and_Update_Operators/stage6/page.C:55-105 | insertRecord, refused or not, does to the page what an insertion does to a map with a byte budget |
| `SlottedPage.DeleteRefines` | p5-Minirel_Query_and_Update_Operators/stage6/page.C:111-189 | deleteRecord, refused or not, does to the page what a deletion does to that map, including when slots are given back |
| `SlottedPage.ReachablePage` | p5-Minirel_Query_and_Update_Operators/stage6/page.C:10-189 | after any sequence of inserts and deletes the live extents tile the used bytes without gap or overlap, the space adds up, no free slot ends the slot array, and the page cannot be told from the map |
| `PageInPlace.Page.Init` | p5-Minirel_Query_and_Update_Operators/stage6/page.C:10-18 | an initialised page is the empty one |
| `PageInPlace.Page.InsertRecord` | p5-Minirel_Query_and_Update_Operators/stage6/page.C:55-105 | on the bytes of the page, with the slot array growing backwards towards the records: NOSPACE with nothing changed, or the exact insertion and its slot number |
| `PageInPlace.Page.DeleteRecord` | p5-Minirel_Query_and_Update_Operators/stage6/page.C:111-189 | on the bytes of the page: INVALIDSLOTNO with nothing changed, or the exact deletion |
| `PageInPlace.Page.Compact` | p5-Minirel_Query_and_Update_Operators/stage6/page.C:143-184 | the shift of the bytes, the offset loop and the trimming loop together compute the compacted area |
| `PageInPlace.Page.FirstRecord` | p5-Minirel_Query_and_Update_Operators/stage6/page.C:192-212 | the loop over the slots finds the first live one, or NORECORDS |
| `PageInPlace.Page.NextRecord` | p5-Minirel_Query_and_Update_Operators/stage6/page.C:216-238 | the next live slot, or ENDOFPAGE; from NULLRID it is the first one |
| `PageInPlace.Page.GetRecord` | p5-Minirel_Query_and_Update_Operators/stage6/page.C:241-254 | the bytes of the record, or INVALIDSLOTNO |
| `Files.Conservation` | p5-Minirel_Query_and_Update_Operators/stage6/db.C:238-330 | header, allocated and free pages make up the file: numPages is 1 plus the allocated plus the free ones, and the first page is never free |
| `Files.AllocateExact` | p5-Minirel_Query_and_Update_Operators/stage6/db.C:238-285 | the page handed out was not allocated; it is the head of the free list or extends the file; no other page changes owner or bytes |
| `Files.DisposeExact` | p5-Minirel_Query_and_Update_Operators/stage6/db.C:292-330 | the page given back becomes the head of the free list, which stays acyclic, and nothing else changes |
| `Files.AllocateAfterDispose` | p5-Minirel_Query_and_Update_Operators/stage6/db.C:238-330 | free pages are reused last in, first out |
| `Files.DisposeTwice` | p5-Minirel_Query_and_Update_Operators/stage6/db.C:308-323 | giving back a page that is free already destroys the free list: no list of distinct pages follows its links any more |
| `Files.WriteKeeps` | p5-Minirel_Query_and_Update_Operators/stage6/db.C:238-330 | writing an allocated page cannot damage the free list |
| `Files.File.constructor` | p5-Minirel_Query_and_Update_Operators/stage6/db.C:155-180 | a new file holds its header alone and has an empty free list |
| `Files.File.AllocatePage` | p5-Minirel_Query_and_Update_Operators/stage6/db.C:238-285 | reading and writing back the header and the free page gives exactly that allocation |
| `Files.File.DisposePage` | p5-Minirel_Query_and_Update_Operators/stage6/db.C:292-330 | BADPAGENO with nothing changed, or that disposal; the file stays well formed if and only if the page was refused or was allocated |
| `BufferHash.HashInRange` | p5-Minirel_Query_and_Update_Operators/stage6/bufHash.C:13-19 | the hash value is an index of the table although the 32-bit sum may be negative |
| `BufferHash.LinkOk` | p5-Minirel_Query_and_Update_Operators/stage6/bufHash.C:51-72 | a bucket put in front of its chain keeps every chain keyed and adds one page to the index |
| `BufferHash.UnlinkOk` | p5-Minirel_Query_and_Update_Operators/stage6/bufHash.C:102-123 | unlinking a bucket, at the head or within its chain, takes exactly its page out of the index |
| `BufferHash.BufHashTbl.Insert` | p5-Minirel_Query_and_Update_Operators/stage6/bufHash.C:51-72 | HASHTBLERROR and nothing changed if and only if the page is in the table, else the map gains it |
| `BufferHash.BufHashTbl.Lookup` | p5-Minirel_Query_and_Update_Operators/stage6/bufHash.C:81-94 | the frame the map has for the page, or HASHNOTFOUND if and only if it has none |
| `BufferHash.BufHashTbl.Remove` | p5-Minirel_Query_and_Update_Operators/stage6/bufHash.C:102-123 | the map loses the page, or HASHTBLERROR if and only if it did not have it |
| `ClockPolicy.SweepExhausted` | p5-Minirel_Query_and_Update_Operators/stage6/buf.C:75-115 | two turns of the hand that take no frame prove that every frame is valid and pinned |
| `ClockPolicy.SweepTakes` | p5-Minirel_Query_and_Update_Operators/stage6/buf.C:78-101 | a frame the hand can take is the nearest one that was invalid or unpinned and unreferenced, or, if there was none, the nearest unpinned one; the frames passed lost their reference bits |
| `ClockHistory.RecentMeans` | p5-Minirel_Query_and_Update_Operators/stage6/buf.C:78-101 | what the reference bits stand for: a frame was used and the hand has not come to it since |
| `ClockHistory.SecondChance` | p5-Minirel_Query_and_Update_Operators/stage6/buf.C:75-115 | a page that was used since the hand last came to it is evicted only if every other frame has a page that is pinned or was used since then, too |
| `ClockHistory.FirstGoes` | p5-Minirel_Query_and_Update_Operators/stage6/buf.C:75-115 | else the nearest frame on the way of the hand goes that is empty, or whose page is neither pinned nor was used since the hand came to it |
| `ClockHistory.ClaimsMean` | p5-Minirel_Query_and_Update_Operators/stage6/buf.C:75-169 | frame by frame, what a choice leaves: the frame chosen belongs to the page, pinned and referenced, with the hand on it, and of the others those the hand came to have lost their reference bits |
| `ClockPolicy.SweepOneShort` | p3-Buffer_Manager_for_DBMS/stage3/buf.C:94-127 | 2N-1 steps that take no frame leave two cases: all frames pinned, or all but the one under the hand, which is unpinned but was referenced |
| `StageThreeClock.Clock.ChooseFrame` | p3-Buffer_Manager_for_DBMS/stage3/buf.C:92-130 | the 2N-1 step clock answers BUFFEREXCEEDED in exactly these two cases, though its comment names only the first, and otherwise takes the same frame |
| `BufferManager.BufMgr.Sweep` | p5-Minirel_Query_and_Update_Operators/stage6/buf.C:72-115 | within 2N steps the hand stops at a free frame if and only if some frame is not pinned |
| `BufferState.EvictOk` | p5-Minirel_Query_and_Update_Operators/stage6/buf.C:95-125 | taking a frame away from an unpinned page changes neither what any client can read nor any pin count |
| `BufferState.InstallOk` | p5-Minirel_Query_and_Update_Operators/stage6/buf.C:154-165 | giving a free frame to a page that is not resident keeps the index and the image of the pages in order |
| `BufferState.UpdateOk` | p5-Minirel_Query_and_Update_Operators/stage6/buf.C:172-195 | whatever pin count, dirty bit and bytes a resident page gets, the image stays faithful if and only if a page that is neither pinned nor dirty has its bytes on disk |
| `BufferState.FlushOk` | p5-Minirel_Query_and_Update_Operators/stage6/buf.C:203-225 | flushing a frame is invisible to clients |
| `BufferState.DisposeMeaning` | p5-Minirel_Query_and_Update_Operators/stage6/buf.C:236-251 | disposePage leaves the page unpinned and out of the pool and the others as they were; if the file refuses the page, what was not written to it is lost exactly if the disk had other bytes |
| `BufferManager.BufMgr.constructor` | p5-Minirel_Query_and_Update_Operators/stage6/buf.C:22-41 | an empty pool shows the pages as they are on disk |
| `BufferManager.BufMgr.AllocBuf` | p5-Minirel_Query_and_Update_Operators/stage6/buf.C:67-131 | BUFFEREXCEEDED if and only if every frame is pinned, else the frame the clock chooses, vacated: its page out of the index and on disk if it was dirty |
| `BufferManager.BufMgr.ReadPage` | p5-Minirel_Query_and_Update_Operators/stage6/buf.C:134-169 | the frame returned holds the bytes the clients last gave the page, whatever was evicted in between, with one pin more and all other pins unchanged; a hit sets the reference bit of its frame and changes nothing else of the clock, a miss takes the frame the clock chooses, and without a free frame all reference bits are gone |
| `BufferManager.BufMgr.Spares` | p5-Minirel_Query_and_Update_Operators/stage6/buf.C:67-169 | in every state a run can reach, a page read or made since the hand last came to its frame is evicted only if all other frames are pinned or were used since then, too |
| `BufferManager.BufMgr.ReadMissing` | p5-Minirel_Query_and_Update_Operators/stage6/buf.C:149-169 | reading a page that the file does not have evicts a page all the same; frames and hash table agree afterwards if and only if the frame the clock chose was empty, or none was free |
| `BufferManager.BufMgr.UnPinPage` | p5-Minirel_Query_and_Update_Operators/stage6/buf.C:172-195 | statuses, and of its frame the pin count and the dirty bit and nothing else; and the dirty discipline as an equivalence: pool and disk stay coherent if and only if a last unpin that calls the page clean finds its bytes on disk |
| `BufferManager.BufMgr.AllocPage` | p5-Minirel_Query_and_Update_Operators/stage6/buf.C:254-275 | a page no client knew, pinned once, in the frame the clock chooses; when every frame is pinned it is allocated in the file all the same |
| `BufferManager.BufMgr.DisposePage` | p5-Minirel_Query_and_Update_Operators/stage6/buf.C:236-251 | the page leaves pool and file, or is refused by the file after its cached copy was dropped; the buffer manager stays in order if and only if the page was refused or was not on the free list already |
| `BufferManager.BufMgr.FlushFile` | p5-Minirel_Query_and_Update_Operators/stage6/buf.C:197-232 | PAGEPINNED if and only if a page of the file is pinned, else all pages of the file are on disk and out of the pool; frame by frame, the pages of the file before the first pinned one are gone and all other frames are as they were; never BADBUFFER |
| `BufferManager.BufMgr.Shutdown` | p5-Minirel_Query_and_Update_Operators/stage6/buf.C:44-64 | the destructor leaves on disk what the clients know, for every page that is unpinned or marked dirty |
| `BufferRuns.Session.Submit` | p5-Minirel_Query_and_Update_Operators/stage6/buf.C:134-275 | the answer and the clients' ledger after a request - bytes, pins, changed pages, room in the files - follow from the ledger before: BUFFEREXCEEDED if and only if as many pages are pinned as there are frames and the page is not one of them, PAGEPINNED if and only if the file has a pinned page, else OK with the bytes of the plain map |
| `BufferRuns.LawfulMeans` | p5-Minirel_Query_and_Update_Operators/stage6/buf.C:134-275 | the conditions under which each kind of request is lawful, and no others |
| `BufferRuns.FullMeans` | p5-Minirel_Query_and_Update_Operators/stage6/buf.C:75-115 | all frames are pinned if and only if the clients hold pins on as many pages as there are frames |
| `BufferRuns.FilePinnedMeans` | p5-Minirel_Query_and_Update_Operators/stage6/buf.C:197-232 | a frame holds a pinned page of a file if and only if the clients hold a pin on one |
| `BufferRuns.Session.Run` | p5-Minirel_Query_and_Update_Operators/stage6/buf.C:67-275 | cache coherence over every run: for any sequence of requests and any evictions each answer is the one the ledger of its moment asks for, refused if and only if the request is not lawful in it, and the ledger at the end is the one the requests lead to |
| `BufferRuns.ReadLastWritten` | p5-Minirel_Query_and_Update_Operators/stage6/buf.C:134-275 | in any run a page that is read has the bytes written to it last |
| `BufferRuns.RunAccounted` | p5-Minirel_Query_and_Update_Operators/stage6/db.C:238-330 | in any run each page of a file is either known to the clients or free, and not both, and no page is free twice |
| `BufferRuns.NewIsNew` | p5-Minirel_Query_and_Update_Operators/stage6/buf.C:254-275 | allocPage hands out a page that no client knows |
| `BufferRuns.Session.BookAccounted` | p5-Minirel_Query_and_Update_Operators/stage6/db.C:238-330 | the ledger of a running session accounts for every page of its files |
| `HeapClient.CallLawful` | p5-Minirel_Query_and_Update_Operators/stage6/heapfile.C:74-587 | what HeapStore demands for a call makes it a request that the buffer manager allows |
| `HeapClient.CallMirrors` | p5-Minirel_Query_and_Update_Operators/stage6/heapfile.C:74-587 | a call does to the pages, pins and unsaved pages of the heap file what its request does to the ledger of the buffer manager |
| `HeapClient.RunLawful` | p5-Minirel_Query_and_Update_Operators/stage6/heapfile.C:74-587 | over any run of calls, each allowed by HeapStore, none is refused as long as there are frames, and the heap file and the ledger agree all the time |
| `HeapClient.Elsewhere` | p5-Minirel_Query_and_Update_Operators/stage6/buf.C:134-275 | what others do to other files leaves a heap file as the ledger has it |
| `HeapSpec.FromNext` | p5-Minirel_Query_and_Update_Operators/stage6/heapfile.C:341-369 | one step of a scan takes the first record off those ahead of it, or leaves the pages behind the current one |
| `HeapSpec.DeleteListing` | p5-Minirel_Query_and_Update_Operators/stage6/heapfile.C:396-408 | deleting the current record leaves the records behind and ahead of the scan as they were |
| `HeapSpec.DeleteChain` | p5-Minirel_Query_and_Update_Operators/stage6/heapfile.C:396-408 | deleting leaves the chain of pages linked as it was |
| `HeapGrowth.InsertExact` | p5-Minirel_Query_and_Update_Operators/stage6/heapfile.C:505-587 | insertRecord adds its record under the RID it returns, and every other record keeps its RID, its bytes and its place among the others |
| `HeapGrowth.InsertTooLong` | p5-Minirel_Query_and_Update_Operators/stage6/heapfile.C:513-585 | a record of 1001 to 1004 bytes passes the length check, does not fit an empty page either, and leaves one empty page more |
| `HeapGrowth.InsertSelected` | p5-Minirel_Query_and_Update_Operators/stage6/page.C:66-88 | since the lowest free slot of the last page is used, a record is listed behind all others of its kind as long as none of these lies behind the insertion point, and that stays so |
| `HeapGrowth.InsertAllInOrder` | p5-Minirel_Query_and_Update_Operators/stage6/heapfile.C:505-587 | the records of a kind inserted one after the other are listed in that order, whatever holes the file has |
| `HeapGrowth.InsertAllKeeps` | p5-Minirel_Query_and_Update_Operators/stage6/heapfile.C:505-587 | a list of insertions adds these records and loses or changes none |
| `HeapGrowth.InsertOther` | p5-Minirel_Query_and_Update_Operators/stage6/heapfile.C:505-587 | inserting a record of another kind changes nothing for a kind |
| `HeapStores.HeapStore.constructor` | p5-Minirel_Query_and_Update_Operators/stage6/heapfile.C:28-51 | the steps of createHeapFile, two allocations, the set-up of both pages and two dirty unpins, leave one empty data page, no records, no pins and nothing unsaved |
| `HeapStores.HeapStore.UnPinPage` | p5-Minirel_Query_and_Update_Operators/stage6/buf.C:172-195 | the last pin on a page that was changed can only be given back dirty, as the buffer manager needs it from its clients |
| `HeapStores.HeapStore.LinkPage` | p5-Minirel_Query_and_Update_Operators/stage6/heapfile.C:545-559 | a new page is linked behind the last one and the header follows: the chain stays acyclic, ends at lastPage and has pageCnt pages |
| `HeapScans.HeapFileScan.constructor` | p5-Minirel_Query_and_Update_Operators/stage6/heapfile.C:74-120 | an opened scan has all records ahead of it and holds one pin on the header page and one on the first data page |
| `HeapScans.HeapFileScan.StartScan` | p5-Minirel_Query_and_Update_Operators/stage6/heapfile.C:210-237 | the filter is taken over if and only if offset, length and type go together, else BADSCANPARM |
| `HeapScans.HeapFileScan.ScanNext` | p5-Minirel_Query_and_Update_Operators/stage6/heapfile.C:291-384 | the next matching record in chain and slot order, across empty pages; FILEEOF at the end and at every later call; INVALIDSLOTNO at a record of length 0 |
| `HeapScans.SkipMeans` | p5-Minirel_Query_and_Update_Operators/stage6/heapfile.C:341-384 | the scan stops at the first record that matches or that it cannot read, and at none before that |
| `HeapScans.StopsSkip` | p5-Minirel_Query_and_Update_Operators/stage6/heapfile.C:291-384 | each call takes exactly one element off the list of records a scan stops at |
| `HeapScans.HeapFileScan.GetRecord` | p5-Minirel_Query_and_Update_Operators/stage6/heapfile.C:390-393 | the bytes of the record the scan stands on, or INVALIDSLOTNO if it has length 0 or was deleted meanwhile |
| `HeapScans.HeapFileScan.GetAt` | p5-Minirel_Query_and_Update_Operators/stage6/heapfile.C:168-199 | whatever is under a RID of a page of the file, from whatever page is pinned: what the page answers, with one page pinned as before and all other pins as they were |
| `HeapScans.HeapFileScan.GetEntry` | p5-Minirel_Query_and_Update_Operators/stage6/heapfile.C:168-199 | and that is the record of the file with this RID |
| `HeapScans.HeapFileScan.DeleteRecord` | p5-Minirel_Query_and_Update_Operators/stage6/heapfile.C:396-408 | the current record goes and the scan continues behind it; recCnt stays the number of records if and only if there was a record to delete |
| `HeapScans.HeapFileScan.MarkScan` | p5-Minirel_Query_and_Update_Operators/stage6/heapfile.C:260-266 | the mark remembers page and record; if a page is current, the records ahead |
| `HeapScans.HeapFileScan.ResetScan` | p5-Minirel_Query_and_Update_Operators/stage6/heapfile.C:268-288 | from whatever page, the scan is back at a mark set on a page: the same record is current and the same records are ahead |
| `HeapScans.HeapFileScan.ResetNowhere` | p5-Minirel_Query_and_Update_Operators/stage6/heapfile.C:268-288 | back at a mark set without a page: OK if and only if the page number is still the same, else BADPAGENO; a scan that had a page has given it back and keeps its pointer, and is in order if and only if it had none |
| `HeapScans.HeapFileScan.EndScan` | p5-Minirel_Query_and_Update_Operators/stage6/heapfile.C:240-253 | the current page is given back, with the dirty bit of what was done to it |
| `HeapScans.HeapFileScan.Destroy` | p5-Minirel_Query_and_Update_Operators/stage6/heapfile.C:123-154 | construct, use, destroy: every pin count is as it was before, and every page changed through the object was unpinned dirty |
| `HeapScans.ReopenedExact` | p5-Minirel_Query_and_Update_Operators/stage6/heapfile.C:302-327 | a scan used again after endScan sees the whole file if and only if its first page has a record or no page has |
| `HeapScans.ReopenedLoses` | p5-Minirel_Query_and_Update_Operators/stage6/heapfile.C:302-327 | a file for which it misses a record |
| `HeapInserts.InsertFileScan.constructor` | p5-Minirel_Query_and_Update_Operators/stage6/heapfile.C:472-488 | an opened insert scan holds one pin on the header page and one on the last page |
| `HeapInserts.InsertFileScan.InsertRecord` | p5-Minirel_Query_and_Update_Operators/stage6/heapfile.C:505-587 | INVALIDRECLEN above 1004 bytes, NOSPACE for what no page can take, else the record is on the last page or on a new one behind it, under the RID returned, and recCnt counts it |
| `HeapInserts.InsertedRecord` | p5-Minirel_Query_and_Update_Operators/stage6/heapfile.C:505-587 | the file gains the record under the RID returned, with its bytes, and otherwise lists what it did |
| `HeapInserts.FilledListing` | p5-Minirel_Query_and_Update_Operators/stage6/heapfile.C:530-581 | a list of insertions adds one record for each element of the list, with its bytes |
| `HeapInserts.InsertFileScan.Destroy` | p5-Minirel_Query_and_Update_Operators/stage6/heapfile.C:490-502 | both pins are given back and the last page is unpinned dirty |
| `HeapInserts.FilledCounted` | p5-Minirel_Query_and_Update_Operators/stage6/heapfile.C:530-581 | recCnt stays the number of records over any sequence of insertions |
| `HeapRuns.RunTallies` | p5-Minirel_Query_and_Update_Operators/stage6/heapfile.C:396-587 | after any mix of insertions and deletions the chain is acyclic, pageCnt is its length, recCnt is the number of records, and the file lists exactly the records put in and not deleted, with their RIDs and bytes |
| `HeapRuns.RidsDiffer` | p5-Minirel_Query_and_Update_Operators/stage6/heapfile.C:396-587 | over any such mix no two records have one RID, so an insertion never takes the RID of a record that is there |
| `HeapRuns.PutRecord` | p5-Minirel_Query_and_Update_Operators/stage6/heapfile.C:505-587 | insertRecord does that insertion to chain, page count and record count, whatever the length of the record |
| `HeapRuns.DropRecord` | p5-Minirel_Query_and_Update_Operators/stage6/heapfile.C:396-408 | deleteRecord does that deletion to them |
| `HeapRuns.RunRequests` | p5-Minirel_Query_and_Update_Operators/stage6/heapfile.C:74-587 | any list of requests, each through an object of its own that is opened and destroyed, makes of the file what the requests ask for one after the other; every pin is given back and what was changed was unpinned dirty |
| `HeapRuns.DeletesFirst` | p5-Minirel_Query_and_Update_Operators/stage6/heapfile.C:291-408 | a request to delete takes out the first record its scan stops at and keeps all others in order with their RIDs, or changes nothing if that record has length 0 or there is none |
| `HeapRuns.InsertsOne` | p5-Minirel_Query_and_Update_Operators/stage6/heapfile.C:505-587 | a request to insert adds its record under a RID of its own and changes no other, or adds nothing if no page can take it |
| `Filters.IntCompare` | p5-Minirel_Query_and_Update_Operators/stage6/heapfile.C:431-468 | comparing ints by their 32-bit difference is right if and only if the operator asks for no order or the difference does not overflow |
| `Filters.StrnCmpIsLex` | p5-Minirel_Query_and_Update_Operators/stage6/heapfile.C:453-457 | strncmp orders C strings as a dictionary does, whatever follows their NULs |
| `Filters.CompareMeaning` | p5-Minirel_Query_and_Update_Operators/stage6/heapfile.C:418-470 | matchRec decides what its operator names on numbers, on the values of floats and on strings, if and only if no ordering of ints overflows and no infinity is asked whether it is equal to itself; NaN is unordered on both sides |
| `Filters.IntPasses` | p5-Minirel_Query_and_Update_Operators/stage6/heapfile.C:431-468 | operator by operator on ints: less is less, and so on, and if the difference overflows the order is the opposite one |
| `Filters.FloatPasses` | p5-Minirel_Query_and_Update_Operators/stage6/heapfile.C:443-468 | operator by operator on floats by their sign and bits: NaN and two equal infinities pass NE alone |
| `Filters.StringPasses` | p5-Minirel_Query_and_Update_Operators/stage6/heapfile.C:453-468 | operator by operator on strings: the first character that differs before a NUL decides |
| `Filters.MatchAttribute` | p5-Minirel_Query_and_Update_Operators/stage6/heapfile.C:418-426 | a filter looks at the bytes from its offset on, and never matches a record too short for them |
| `Filters.MatchInt` | p5-Minirel_Query_and_Update_Operators/stage6/heapfile.C:418-470 | which records a filter on an int attribute selects, for each operator |
| `Filters.InfinityMissed` | p5-Minirel_Query_and_Update_Operators/stage6/heapfile.C:441-468 | EQ with infinity misses the records that have it, and NE finds them |
| `Floats.BitsOrder` | p5-Minirel_Query_and_Update_Operators/stage6/heapfile.C:441-450 | the value of a float, read from its exponent and fraction, is ordered as its bits are, with infinity on top |
| `Floats.UnitsOrder` | p5-Minirel_Query_and_Update_Operators/stage6/heapfile.C:443-450 | floats are ordered by sign and bits, and the two zeros are equal |
| `Floats.Doubles` | p5-Minirel_Query_and_Update_Operators/stage6/heapfile.C:443-450 | from one exponent to the next the values double |
| `Floats.RoundedSign` | p5-Minirel_Query_and_Update_Operators/stage6/heapfile.C:434-450 | rounding a difference to a float, to even and down to subnormals, loses neither its sign nor its being 0 |
| `Filters.FlipMeaning` | p5-Minirel_Query_and_Update_Operators/stage6/join.C:105-112 | the flipped operator on swapped sides asks the same question |
| `ScanRuns.RunScan` | p5-Minirel_Query_and_Update_Operators/stage6/heapfile.C:291-408 | scan completeness under deletion: the RID of every matching record is returned exactly once and in order whichever of the returned records are deleted on the way, the others keep their RIDs and bytes, and the scan ends with FILEEOF |
| `ScanRuns.PickedPlaces` | p5-Minirel_Query_and_Update_Operators/stage6/heapfile.C:341-408 | which records these are: those matchRec selects, in the order of the file, and left are those it does not select or that were not deleted |
| `DeleteQuery.QuDelete` | p5-Minirel_Query_and_Update_Operators/stage6/delete.C:13-81 | in any relation, the attribute catalog among them: exactly the records that do not match are left, with their RIDs and bytes, and recCnt goes down by the number deleted; if the catalog does not have the attribute or the scan refuses the condition no record changes, but two pins are left behind |
| `Schema.ProjectField` | p5-Minirel_Query_and_Update_Operators/stage6/select.C:131-136 | each attribute of a projection stands where the lengths before it add up to |
| `Schema.ProjectAll` | p5-Minirel_Query_and_Update_Operators/stage6/select.C:131-136 | projecting on all attributes in schema order gives the record back |
| `SelectQuery.CopyAttrs` | p5-Minirel_Query_and_Update_Operators/stage6/select.C:125-136 | the copying loop builds the projection of the record |
| `SelectQuery.ScanSelect` | p5-Minirel_Query_and_Update_Operators/stage6/select.C:64-148 | the result gains the projections of the matching records in scan order and nothing else, the source is unchanged, the pins are given back; a projection too wide for a page is refused without adding anything |
| `SelectQuery.SelectedRecord` | p5-Minirel_Query_and_Update_Operators/stage6/select.C:119-142 | each record appended is as wide as the projection, and each attribute stands where the lengths before it add up to, with the bytes it has in the record it comes from |
| `SelectQuery.SelectAllCopies` | p5-Minirel_Query_and_Update_Operators/stage6/select.C:119-142 | selecting all attributes in schema order copies the records unchanged |
| `HeapGrowth.InsertAllAppends` | p5-Minirel_Query_and_Update_Operators/stage6/select.C:140 | into a file whose last page has no holes the records go in the order of their insertion |
| `JoinQuery.CopyAttrs` | p5-Minirel_Query_and_Update_Operators/stage6/join.C:137-154 | each attribute of the output comes from the outer record if it has the relation name of the first join attribute, else from the inner one |
| `JoinQuery.QuNlJoin` | p5-Minirel_Query_and_Update_Operators/stage6/join.C:24-165 | refused if and only if the types or lengths in the arguments differ, whatever the catalog says, or the catalog does not have one of the attributes; else the result gains one record per matching pair in outer-major order; the sources, which may be one relation, are unchanged and all pins are given back |
| `JoinQuery.LookUp` | p5-Minirel_Query_and_Update_Operators/stage6/join.C:43-76 | the descriptors of the attributes in their order, or the answer for the first one that is not found |
| `JoinQuery.InfoMeans` | p5-Minirel_Query_and_Update_Operators/stage6/join.C:43-76 | a descriptor is found if and only if the catalog has an entry with both names, and it is that of the first one |
| `JoinQuery.PartnerSeen` | p5-Minirel_Query_and_Update_Operators/stage6/join.C:104-127 | the inner scan, with the flipped operator and its value inside the outer record, finds the inner records with o.attr1 op i.attr2, attr1 read with the type and length of attr2, if and only if no ordering of ints overflows and no infinity is compared for equality with itself |
| `JoinQuery.PartnerMeaning` | p5-Minirel_Query_and_Update_Operators/stage6/join.C:104-127 | that is the comparison of the two attributes when the catalog has them with one type and length |
| `JoinQuery.MixedTypes` | p5-Minirel_Query_and_Update_Operators/stage6/join.C:34-127 | attributes of different types are compared all the same: an int 65 is joined with the string A |
| `JoinQuery.JoinExact` | p5-Minirel_Query_and_Update_Operators/stage6/join.C:114-162 | the records appended are those of exactly the pairs related by the comparison, in outer-major order |
| `JoinQuery.RowsOf` | p5-Minirel_Query_and_Update_Operators/stage6/join.C:114-162 | each record appended comes from a pair of records |
| `JoinQuery.RowPairs` | p5-Minirel_Query_and_Update_Operators/stage6/join.C:114-127 | the pairs are those whose inner record passes the scan on attr2 with the flipped operator and the value of attr1 in the outer record, and they come in the order of the outer relation and then of the inner one |
| `JoinQuery.RowRecord` | p5-Minirel_Query_and_Update_Operators/stage6/join.C:137-162 | each record appended is as wide as the projection, and each attribute stands where the lengths before it add up to, with its bytes from the outer record if it has the relation name of attr1 and else from the inner one |
| `JoinQuery.JoinedField` | p5-Minirel_Query_and_Update_Operators/stage6/join.C:137-154 | each attribute stands in the joined record where the lengths before it add up to, with its value in the record it is taken from |
| `JoinQuery.SourcesRight` | p5-Minirel_Query_and_Update_Operators/stage6/join.C:142-153 | attributes are taken from the record of their own relation if and only if the two relations differ, or the two records are the same, or no attribute of the relation joined with itself is asked for |
| `JoinQuery.SelfJoin` | p5-Minirel_Query_and_Update_Operators/stage6/join.C:142-153 | a relation joined with itself gives projections of the outer record alone |
| `InsertQuery.BuildRecord` | p5-Minirel_Query_and_Update_Operators/stage6/insert.C:44-99 | it succeeds if and only if each attribute gets a value that is not NULL and has its type, and then the values stand in schema order; as many bytes are copied as the attribute has, however short the string is |
| `InsertQuery.SuppliedMeans` | p5-Minirel_Query_and_Update_Operators/stage6/insert.C:47-66 | an attribute has a value if and only if the list names it with one that is not NULL and has its type |
| `InsertQuery.QuInsert` | p5-Minirel_Query_and_Update_Operators/stage6/insert.C:13-108 | BADCATPARM or RELNOTFOUND if the catalog has no schema; ATTRTYPEMISMATCH with the relation unchanged; or the record of the values is inserted, or the program stops at the assertion, if and only if all values are there and no page can take a record that wide; a list shorter than the schema leaves the end of the record as the stack had it |
| `InsertQuery.InsertedField` | p5-Minirel_Query_and_Update_Operators/stage6/insert.C:60-91 | reading an attribute at its catalog offset gives the value supplied for it, wherever it was in the list |
| `InsertQuery.InsertedString` | p5-Minirel_Query_and_Update_Operators/stage6/insert.C:60-91 | a string is read back as the C string it was, cut off at the length of its attribute, whatever lay behind its NUL |
| `InsertQuery.ListOrder` | p5-Minirel_Query_and_Update_Operators/stage6/insert.C:45-93 | the order of the attribute list makes no difference |
| `CatalogRecords.DecodeEncode` | p5-Minirel_Query_and_Update_Operators/stage6/catalog.C:145-167 | what addInfo stores is read back as the same descriptor |
| `CatalogRecords.EncodeLayout` | p5-Minirel_Query_and_Update_Operators/stage6/catalog.h:75-81 | where each member of a descriptor stands in the 76 bytes |
| `CatalogRecords.NameMatch` | p5-Minirel_Query_and_Update_Operators/stage6/catalog.C:232-237 | scanning for a name with its NUL matches exactly the records of that relation, not those whose name only begins with it |
| `AttrCatalog.AddInfo` | p5-Minirel_Query_and_Update_Operators/stage6/catalog.C:145-167 | one record more in the attribute catalog: the descriptor with its names padded |
| `AttrCatalog.GetInfo` | p5-Minirel_Query_and_Update_Operators/stage6/catalog.C:106-142 | the first descriptor with both names, ATTRNOTFOUND if there is none, BADCATPARM for empty names |
| `AttrCatalog.FirstAttr` | p5-Minirel_Query_and_Update_Operators/stage6/catalog.C:106-142 | the entry found has both names, no entry before it has, and its descriptor is what its bytes were made of |
| `AttrCatalog.RemoveInfo` | p5-Minirel_Query_and_Update_Operators/stage6/catalog.C:170-215 | the first entry with both names is deleted and nothing else; RELNOTFOUND if there is none |
| `AttrCatalog.GetRelInfo` | p5-Minirel_Query_and_Update_Operators/stage6/catalog.C:218-265 | all descriptors of the relation in scan order, RELNOTFOUND if there are none |
| `CreateRelation.CheckAttrs` | p5-Minirel_Query_and_Update_Operators/stage6/create.C:28-37 | two attributes with one name are found, else the lengths are added up in 32 bits without a sign |
| `CreateRelation.WidthWraps` | p5-Minirel_Query_and_Update_Operators/stage6/create.C:28-40 | three lengths whose sum wraps around to 0, so that the check passes |
| `CreateRelation.DescsLaidOut` | p5-Minirel_Query_and_Update_Operators/stage6/create.C:53-67 | the offsets are the sums of the lengths before, for lengths that are not negative and whose sum is an int |
| `CreateRelation.CreateRel` | p5-Minirel_Query_and_Update_Operators/stage6/create.C:4-74 | the refusals in their order, with both catalogs unchanged; a name that is too long is noticed only after entries were made, and these stay |
| `CreateRelation.RefusalMeans` | p5-Minirel_Query_and_Update_Operators/stage6/create.C:11-40 | which relations are refused, with which status, the first reason deciding |
| `CreateRelation.AddAttrs` | p5-Minirel_Query_and_Update_Operators/stage6/create.C:53-68 | the entries of the attributes, with prefix sums as offsets, up to one whose name is too long |
| `CreateRelation.CreationOrder` | p5-Minirel_Query_and_Update_Operators/stage6/create.C:53-68 | catalog order survives slot reuse: getRelInfo gives the attributes in the order of creation, each with its own name, type and length, whatever holes earlier drops left |
| `TwoCatalogs.CreatedAgree` | p5-Minirel_Query_and_Update_Operators/stage6/create.C:16-68 | if each relation has one entry in the relation catalog and as many in the attribute catalog as that says, and no other relation has any, that is so again after createRel if and only if no name of an attribute was too long |
| `TwoCatalogs.CreateAndLook` | p5-Minirel_Query_and_Update_Operators/stage6/create.C:4-74 | create a relation and look its schema up: element by element the relation name, and the attribute names, types and lengths asked for, up to the first name that is too long |
| `CreateRelation.SchemaKept` | p5-Minirel_Query_and_Update_Operators/stage6/catalog.C:145-167 | adding an entry of another relation leaves the schema of a relation as it is |
| `CreateRelation.SchemaKeptByRemove` | p5-Minirel_Query_and_Update_Operators/stage6/catalog.C:170-215 | so does removing one |
| `MergeOrder.RecCmpMeaning` | p5-Minirel_Query_and_Update_Operators/stage6/sort.C:20-50 | reccmp orders two keys as their values, floats and strings included, if and only if the difference of ints does not overflow and no NaN and no two infinities of one sign meet |
| `MergeOrder.NotAboveItself` | p5-Minirel_Query_and_Update_Operators/stage6/sort.C:20-50 | a record is never put above itself, though an infinity is not found equal to itself |
| `MergeOrder.SmallestIsLeast` | p5-Minirel_Query_and_Update_Operators/stage6/sort.C:317-341 | the run chosen has a smallest record, and among equal ones it is the first run |
| `MergeOrder.MergeSorted` | p5-Minirel_Query_and_Update_Operators/stage6/sort.C:300-355 | merging sorted runs gives a sorted list |
| `MergeOrder.MergePermutes` | p5-Minirel_Query_and_Update_Operators/stage6/sort.C:300-355 | merging gives out every record of the runs once |
| `MergeOrder.OrderMeans` | p5-Minirel_Query_and_Update_Operators/stage6/sort.C:20-50 | two records in order, on their bytes: the attribute at the offset goes up as an int, as a float by sign and bits, or byte by byte |
| `RunValues.DividedMeans` | p5-Minirel_Query_and_Update_Operators/stage6/sort.C:129-187 | each run has 1 to maxItems records and is sorted, and together they are the source |
| `RunMaking.FillBuffer` | p5-Minirel_Query_and_Update_Operators/stage6/sort.C:129-187 | the next records of the scan go into the buffer with RID and key, up to maxItems or the end of the source |
| `RunMaking.GenerateRun` | p5-Minirel_Query_and_Update_Operators/stage6/sort.C:194-266 | the heap file of a run, written record by record with getRecord by RID on the source, lists the records of the buffer sorted by their key; the source keeps its records and its pins |
| `ExternalSort.SortFile` | p5-Minirel_Query_and_Update_Operators/stage6/sort.C:129-187 | every record of the source heap file is in exactly one run file; each is sorted and holds 1 to maxItems records, and a scan stands before its first |
| `RunFiles.RunFile.Fetch` | p5-Minirel_Query_and_Update_Operators/stage6/sort.C:319-330 | fetching over the scan of the run file: the next record comes into memory, or the run knows that it is at its end |
| `RunFiles.RunFile.SetMark` | p5-Minirel_Query_and_Update_Operators/stage6/sort.C:371-373 | the mark of the scan and the RID of the record in memory are remembered together |
| `RunFiles.RunFile.GotoMark` | p5-Minirel_Query_and_Update_Operators/stage6/sort.C:394-408 | the scan is back at its mark and the record read again there is the one that was in memory; at the end of the run nothing is read |
| `ExternalSort.SortedFile.constructor` | p5-Minirel_Query_and_Update_Operators/stage6/sort.C:91-121 | BADSORTPARM, INSUFMEM for fewer than two items, or what is to come is the source heap file, sorted; the pins on the source are as before |
| `ExternalSort.SortedFile.FindSmallest` | p5-Minirel_Query_and_Update_Operators/stage6/sort.C:314-341 | the loop over the runs fetches what is missing and chooses the first run with a smallest record |
| `ExternalSort.SortedFile.Next` | p5-Minirel_Query_and_Update_Operators/stage6/sort.C:300-355 | the head of what is to come, or FILEEOF, and then for good |
| `ExternalSort.SortedFile.SetMark` | p5-Minirel_Query_and_Update_Operators/stage6/sort.C:361-376 | going back will bring the record next() gave last and all that was to follow, if next() was called; else nothing |
| `ExternalSort.SortedFile.GotoMark` | p5-Minirel_Query_and_Update_Operators/stage6/sort.C:383-412 | what is to come is what the mark promised, including runs at their end when it was set |
| `ExternalSort.SortAll` | p5-Minirel_Query_and_Update_Operators/stage6/sort.C:91-355 | what next() gives until FILEEOF is a permutation of the records of the source heap file in which the attribute at the offset goes up, read from the bytes of the records as an int, a float or a string |
| `ExternalSort.MarkAndReturn` | p5-Minirel_Query_and_Update_Operators/stage6/sort.C:361-412 | merge replay: after any number of further records gotoMark brings the marked record again and exactly what followed it |
| `ExternalSort.MarkUnread` | p5-Minirel_Query_and_Update_Operators/stage6/sort.C:361-412 | a mark set before the first next() brings nothing back, which is right if and only if the source is empty |
| `JoinHashTable.EqualKeys` | p5-Minirel_Query_and_Update_Operators/stage6/joinHT.C:35-53 | equal keys hash alike: numbers, floats, the two zeros among them, and strings that end within their attribute |
| `JoinHashTable.UnendedStrings` | p5-Minirel_Query_and_Update_Operators/stage6/joinHT.C:35-53 | two equal keys with different hash values, one of which goes on behind its attribute |
| `JoinHashTable.IntegersCollide` | p5-Minirel_Query_and_Update_Operators/stage6/joinHT.C:40 | every integer whose product does not overflow has hash value 0 |
| `JoinHashTable.JoinHashTbl.Insert` | p5-Minirel_Query_and_Update_Operators/stage6/joinHT.C:55-86 | the pair goes to the front of its chain, and bucketCnt stays the length of the chain |
| `JoinHashTable.JoinHashTbl.Lookup` | p5-Minirel_Query_and_Update_Operators/stage6/joinHT.C:88-132 | exactly the RIDs inserted under an equal key, newest first, within the array allocated |
| `JoinHashTable.SameKeyMeans` | p5-Minirel_Query_and_Update_Operators/stage6/joinHT.C:103-128 | which keys are equal: the same ints, the same C strings, floats of the same bits or two zeros, but no NaN |
| `JoinHashTable.LookupFinds` | p5-Minirel_Query_and_Update_Operators/stage6/joinHT.C:88-132 | the answer is the RIDs of all pairs with an equal key in the order of the table, and of no others |

## Left out

- The heap layer works on `HeapStore`, a map of pages with a ledger of pins and unsaved pages. `HeapClient` proves its calls to be requests a disciplined client of the buffer manager makes, and to do to the ledger what they do to the file; that a `PageState` is what the bytes of a page mean is proved in `PageInPlace`. The classes are not composed into one program.
- Pages of a heap file never come back to its free list, so `HeapStore.AllocPage` extends the file.
- Failing disk reads and writes; BUFFEREXCEEDED and the other errors of the buffer manager inside the heap layer and above.
- Record pointers into pinned pages are the bytes they lead to; that the outer page of a join is still pinned, with the record in its place, is proved after each scan of the inner relation.
- `createHeapFile` on an existing file, its flush, file names, opening and closing.
- Two inserters on one heap file, and an operator whose result relation is one of its sources.
- Converting literals (`atoi`, `atof`) happens before the model begins.
- PageInPlace.Page.DeleteRecord: a negative slot number is not allowed; the code looks for it on the other side of the slot array.
- PageInPlace.Page.GetRecord: the same.
- BufferManager.BufMgr.ReadPage: the page must be allocated; `ReadMissing` has the pages beyond the file, and what reading a page on the free list gives is not modelled.
- HeapScans.HeapFileScan.DeleteRecord: the scan must have come to a record slot; before its first record the code passes slot number -1 on to the page.
- HeapScans.HeapFileScan.ResetScan: a mark must have been set on a page; `ResetNowhere` has the other marks, and a scan that was never marked, whose fields hold anything, is not modelled.
- HeapScans.HeapFileScan.GetAt: the page must be one of the chain; a RID of another page makes `readPage` fail.
- HeapStores.HeapStore.UnPinPage: the page must be pinned; no object of the heap layer unpins one that is not.
- JoinQuery.QuNlJoin: the projection fits a page (the code stops the program otherwise) and the second join attribute is one a scan can filter on.
- InsertQuery.BuildRecord: the attribute list has distinct names; with a name twice the code copies both values and writes beyond its buffer.
- InsertQuery.QuInsert: the attribute list has distinct names and is no longer than the schema, as many bytes as the attribute has can be read from each value, and the lengths are not negative; the code reads beyond its arrays otherwise.
- CreateRelation.CreateRel: what creating the heap file answers is a parameter; an offset that overflows wraps around, which C leaves open.
- ExternalSort.SortedFile.constructor: the keys of any two records of the source compare rightly (no overflow of ints, no NaN, at most one infinity of each sign) and no record is empty or too short for its key; the naming of run files is not modelled, nor the destructor that removes them, and of qsort only that it sorts.
- JoinHashTable.JoinHashTbl.Insert: strings must end within their attribute; what C leaves open of converting a float to an int is what the processor does.
- JoinHashTable.JoinHashTbl.Lookup: the same.
- `RelCatalog::removeInfo` and dropping a relation, which use a scan after it was deleted; the catalog's help output.
- `OpenFileHashTbl`, `DB` and open counts, `partition.C`, buffer statistics, printing, the parser, and the joins whose bodies are empty.
