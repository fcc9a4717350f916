# RMDB: storage engine, planner, executors and matching

A Dafny model of the core of the RMDB teaching database, with proofs of what that core is for.

- `Page`, `Replacer`, `Pool`, `PoolRuns`, `PoolFlat`, `BufferPool`: the buffer pool manager, its LRU replacer
  and its disk. `BufferPool.BufferPoolManager` is the manager with its mutable fields; the contract of each
  method is a transition of the value state in `Pool`. `PoolFlat` proves that over every run of calls the
  pool behaves like a flat map from page id to bytes with pin counts; `PoolRuns` when a page survives, and
  that the page evicted is the one released longest ago.
- `HeapFile`, `PageLayout`, `PageHandle`, `Bytes`: the record file. `HeapFile` has pages with a header, a
  bitmap and slots, and a chain of pages with room threaded through the headers; it refines a map from
  record id to record. `PageLayout` and `PageHandle` show that the page bytes, edited in place, are
  those typed pages.
- `RecordPool`, `RecordRuns`, `ReadRuns`, `ScanRuns`, `StatementRuns`: the record files on top of the pool. They give
  the pool calls of each operation, and prove that over every run on any number of files the pool's bytes are
  the typed pages, which pins are never given back, and exactly when a scan, a join of two tables, a DELETE and
  an UPDATE run out of frames.
- `Reopen`: the file header, `close_file` and `open_file` over the pool; a whole session survives them.
- `Values`, `Comparison`: columns, literals and conditions as bytes, and what a comparison of bytes means.
- `Scan`, `Join`, `Executors`, `Projection`, `Dml`, `Select`: the executors: the record cursor, the filtered scan,
  the nested-loop join over any children, the projection, DELETE, UPDATE and SELECT, with the exceptions they
  throw.
- `Plans`, `Planner`, `PlanTrees`, `PlanOrder`, `QueryPlanner`, `Delivery`, `Witnesses`: plan trees and the rows
  they stand for; the planner that turns a FROM list and WHERE conditions into such a tree, the shape of the
  trees it makes and the order of the tables in them; what the executors of a tree deliver, and when they throw
  instead; inputs on which a query goes wrong.
- `Catalog`: the text form of the catalog and its stream operators.
- `Matching`: maximum bipartite matching in the vendored gmock.
- `BTree`, `KeyOrder`: repairing the keys above an index node, and the order of multi-column keys.

Code that changes things step by step is a class or a method with loops, proved against a function of the
old state; the theorems are lemmas about those functions.

Some things one would expect of the code do not hold as it is written. Each is shown with the exact
condition under which it does:

- A page keeps its bytes through an eviction, or a fresh page through `new_page`, if and only if the
  victim's frame is dirty or agrees with the disk
  (`PoolRuns.FetchMissKeepsStoreIffVictimSafe`, `PoolRuns.NewKeepsStoreIffVictimSafe`,
  `PoolRuns.DeleteKeepsStoreIffSafe`). `new_page` hands out a clean frame whose page is not on disk, so a
  caller that unpins it clean loses it (`PoolFlat.UnreportedWriteIsLost`). Callers that report their writes
  never lose one (`PoolFlat.RunRefinesFlatMap`), and the record file is such a caller
  (`RecordRuns.PoolServesFiles`).
- `fetch_page` of a page that cannot be read keeps the pool in order if and only if every frame is pinned;
  otherwise it throws with a frame lost (`BufferPool.BufferPoolManager.FetchPage`,
  `Pool.FailedFetchLosesFrame`).
- `get_record` and `is_record` never unpin their page, nor do `delete_record` and `update_record` when the slot
  is empty. A run gives every pin back if and only if it contains none of these
  (`RecordRuns.PinsRestoredIff`). Look-ups on as many pages as there are frames leave every frame pinned
  (`RecordRuns.LookupsFillPool`), and then the file gets a null page for any other
  (`RecordRuns.NullIffStarved`).
- A full scan of a table looks up every record and gives none of those pins back. It finds a frame for every
  page if and only if, before each page that is not held, it meets fewer unheld pages with a record than
  there were free frames (`ScanRuns.ScanFedIff`). So do DELETE and UPDATE, whose changes need no further frame
  (`StatementRuns.DeleteFedIff`, `StatementRuns.UpdateFedIff`). A join of two tables without record-free pages
  finds its frames if and only if there are enough for all the pages of the tables it opens at once
  (`StatementRuns.JoinFedIff`), and for every run that only reads there is an exact condition
  (`ReadRuns.ReadOnlyFedIff`).
- `close_file` leaves the file's pages in their frames, and `open_file` does not look at them. The pool is in
  order and shows the file that is opened if and only if the pages resident under its descriptor are that
  file's (`Reopen.OpenedIff`): in a new pool, or for the same file under the same descriptor, they are
  (`Reopen.ReopenedInNewPool`, `Reopen.ReopenedInSamePool`); for another file that the operating system gives
  the descriptor, as when a table is dropped and one created, `fetch_page` of such a page gives the old file's
  bytes (`Reopen.StaleFetched`).
- `create_new_page_handle` is public and overwrites the head of the chain of pages with room. The chain
  survives if and only if it was empty (`HeapFile.NewPageKeepsChainIffNoneFree`,
  `HeapFile.HalfFullPageIsDropped`); the file's own caller calls it only then.
- `pop_conds` hands a condition between two columns of one table to the first table of the FROM list,
  whichever table it is about. If every such condition is about the first table, the executors throw nothing.
  If not, the scan of the first table meets a column it does not have and throws ColumnNotFoundError, if and
  only if the scan is opened and one of its rows passes the conditions before that one. The query then throws
  whenever it has an answer, and may throw when it has none; if it does not throw, it rightly delivers nothing
  (`Select.RunSelect`, `Delivery.UnscopedDelivered`, `PlanTrees.DecidedByGuard`,
  `Witnesses.MisplacedConditionThrows`).
- The analyzer accepts a condition over a table that is not in the FROM list. The planner makes a plan for the
  query if and only if no condition is like that, apart from comparisons of two columns of one table, which the
  first table takes (`QueryPlanner.MakeOneRel`, `PlanTrees.OutOfScopeNoPlan`). With one table it drops such a
  condition and answers the query without it (`Witnesses.ForeignConditionDropped`, `Select.RunSelect`). A
  selected column of such a table makes the projection throw before the first row (`Select.RunSelect`).
- A join that has ended cannot be restarted: `beginTuple` leaves `isend` set when it finds a match. A pass
  over a join delivers the plan's rows if and only if the join had not ended before or there are none
  (`Select.SelectFrom`). As a right child it is restarted for every left row, so that only the first left
  row meets anything (`Delivery.DeliveredExact`, `Witnesses.EndedJoinLosesRow`). In terms of the data, a row
  comes out if and only if it takes the first row of the left child at every such join
  (`Delivery.PlannedExecution`, `PlanOrder.FirstRowsAre`). Which tables these are is decided by the order in
  which the planner joins them (`QueryPlanner.MakeOneRel`): without conditions between tables, all but the
  first two of the FROM list show only the first of their rows that pass (`PlanOrder.FirstTwoVary`). The planner
  puts a join on the right if and only if there are three tables or more: with no more than two a SELECT is
  complete, and over tables of two rows or more without restricting conditions it is complete only then
  (`Select.RunSelect`).
- A catalog is restored from its text if and only if its names are non-empty and free of white space, every
  table is filed under its own name, every index declares as many columns as it has, and the numbers
  fit their types (`Catalog.RoundTripIff`, `Catalog.UnreadableLost`).
- The order of NaN-free index keys is transitive through a key if and only if the key holds no NaN
  (`KeyOrder.TransitiveThroughIff`), and over all keys of given columns if and only if no column is a float
  (`KeyOrder.TransitiveIffNoFloats`).

`delete_page` leaves its frame in the LRU list, so that list and the free list can overlap. The invariant
`Pool.Inv` allows for it, and it does no harm: no pinned frame is ever taken.

The capacity formula in `rm_manager.h` subtracts the size of the file header, 20 bytes, where a data page
needs 12 for its log sequence number and page header; the model follows the formula and the layout in use.

## Model

| member | source | states |
|---|---|---|
| Replacer.LruReplacer.Victim | src/replacer/lru_replacer.cpp:22-43 | takes the frame at the old end, none if and only if the list is empty; list and hash stay in agreement |
| Replacer.LruReplacer.Pin | src/replacer/lru_replacer.cpp:49-62 | removes the frame wherever it is and nothing else, through the iterator kept in the hash |
| Replacer.LruReplacer.Unpin | src/replacer/lru_replacer.cpp:68-89 | puts an absent frame in front unless the list is full |
| Replacer.LruReplacer.Size | src/replacer/lru_replacer.cpp:94-94 | number of evictable frames |
| Replacer.EraseCell | src/replacer/lru_replacer.cpp:55-61 | erasing one list cell and its hash entry keeps list and hash the same duplicate-free set |
| Replacer.WithoutKeepsDistinct | src/replacer/lru_replacer.cpp:49-62 | after a pin the frame is absent, every other frame stays, and no frame is listed twice |
| Pool.TakeVictim | src/storage/buffer_pool_manager.cpp:18-33 | no frame is found if and only if all are resident and pinned; a frame found is in range and unpinned, and resident exactly when the free list is empty |
| Pool.PlaceKeepsInv | src/storage/buffer_pool_manager.cpp:85-112 | replacing a victim's page keeps page table, frame ids, free list and LRU list consistent |
| Pool.FetchKeepsInv | src/storage/buffer_pool_manager.cpp:56-115 | fetch_page keeps the invariant on hit, miss and failure |
| Pool.FetchIsPlaced | src/storage/buffer_pool_manager.cpp:56-115 | fetch_page delivers a resident page in its frame, held once more, and any other page in the victim's frame, clean, held once, with the bytes on disk after the victim was written back; no other frame moves; without a frame nothing does |
| Pool.NewKeepsInv | src/storage/buffer_pool_manager.cpp:209-261 | new_page keeps the invariant; its page number was never used before |
| Pool.NewIsPlaced | src/storage/buffer_pool_manager.cpp:209-261 | the frame that new_page returns is in range and holds the zeroed page under the next number of the file, which was not resident; without a frame nothing changes |
| Pool.UnpinKeepsInv | src/storage/buffer_pool_manager.cpp:123-166 | unpin_page keeps the invariant |
| Pool.GuardNeverRejects | src/replacer/lru_replacer.cpp:80-83 | the capacity guard of the replacer never turns a pool frame away (pigeonhole) |
| Pool.FlushAllKeepsInv | src/storage/buffer_pool_manager.cpp:316-329 | flushing any number of frames keeps the invariant |
| Pool.AllFlushed | src/storage/buffer_pool_manager.cpp:316-329 | after the loop the disk has the frame's bytes for exactly the resident pages of the file, and the frames keep their bytes |
| Pool.DeleteKeepsInv | src/storage/buffer_pool_manager.cpp:268-310 | delete_page keeps the invariant although its frame stays in the LRU list |
| Pool.FailedFetchLosesFrame | src/storage/buffer_pool_manager.cpp:79-101 | if a page cannot be read, the frame taken for it belongs to no page and is in no free list afterwards; the replacer still has it only if a delete left it there; the invariant is broken |
| PoolRuns.FetchMissKeepsStoreIffVictimSafe | src/storage/buffer_pool_manager.cpp:79-115 | a page miss leaves every page's bytes alone if and only if the victim's frame is dirty or agrees with the disk |
| PoolRuns.NewKeepsStoreIffVictimSafe | src/storage/buffer_pool_manager.cpp:209-261 | new_page adds exactly one zeroed, hitherto unknown page if and only if the victim's frame is safe |
| PoolRuns.DeleteKeepsStoreIffSafe | src/storage/buffer_pool_manager.cpp:286-309 | delete_page keeps the page's bytes on disk if and only if its frame is safe |
| PoolRuns.ApplyKeepsInv | src/storage/buffer_pool_manager.cpp:56-329 | every allowed call keeps frame ownership |
| PoolRuns.StepKeepsStore | src/storage/buffer_pool_manager.cpp:56-329 | one disciplined call keeps every page's bytes, delivers the stored ones, and leaves every unreported page pinned |
| PoolRuns.ApplyKeepsAge | src/replacer/lru_replacer.cpp:22-89 | over any call the LRU list stays sorted by the time each frame was last released |
| PoolRuns.EvictsLeastRecentlyReleased | src/storage/buffer_pool_manager.cpp:24-32 | with no free frame, the frame taken is the unpinned one released longest ago |
| PoolFlat.AllPinnedIff | src/storage/buffer_pool_manager.cpp:18-33 | as many pages are held as there are frames if and only if every frame holds a pinned page |
| PoolFlat.StepRefinesFlat | src/storage/buffer_pool_manager.cpp:56-329 | one disciplined call gives the answer of a flat map with pin counts and page counters, and the pool stays that map; a page is refused exactly when it is not held and every frame is pinned |
| PoolFlat.RunRefinesFlatMap | src/storage/buffer_pool_manager.cpp:56-329 | over every run of well-behaved callers the answers are those of the flat map, and pages, pins, counters and unreported pages end up as it says |
| PoolFlat.FlatKeepsPages | src/storage/buffer_pool_manager.cpp:56-329 | no page that exists is ever forgotten |
| PoolFlat.InitialIsGood | src/storage/buffer_pool_manager.h:37-53 | a new pool satisfies every invariant, shows the disk's pages and holds no pin |
| PoolFlat.FlushedSurvives | src/storage/buffer_pool_manager.cpp:316-329 | a new pool on the flushed disk shows exactly the pages of the file with the bytes they had |
| PoolFlat.FlushedWriteSurvives | src/storage/buffer_pool_manager.cpp:173-202 | a page that is written, flushed and then unpinned as clean has its bytes after every well-behaved run that does not write it again |
| PoolFlat.NoFrameIffAllPinned | src/storage/buffer_pool_manager.cpp:79-83 | a miss or new_page returns null if and only if every frame holds a pinned page, and then nothing changed |
| PoolFlat.UnreportedWriteIsLost | src/storage/buffer_pool_manager.cpp:227-233 | a page created, written and unpinned clean is gone after the next eviction |
| RecordPool.RequestServed | src/record/rm_file_handle.cpp:19-256 | the calls that get_record, an insertion, a deletion, an update or a page of a scan makes are well behaved, and lead to the pool described by Served: that page rewritten, one pin left behind by some requests, nothing else moved |
| RecordPool.ServedBacks | src/record/rm_file_handle.cpp:44-156 | afterwards the pool's pages are again, byte for byte, the pages of the typed file after the operation, the allocation counter agrees, and no write is unreported |
| RecordPool.KeepsIff | src/record/rm_file_handle.cpp:19-38 | a request leaves its pin behind if and only if it is a look-up, or a deletion or update of a slot that the page's bitmap says is empty |
| RecordPool.FileChange | src/record/rm_file_handle.cpp:60-123 | the new bytes of the page decode to the typed page that the operation leaves |
| RecordRuns.NullIffStarved | src/record/rm_file_handle.cpp:166-202 | the file gets a null page if and only if every frame is pinned and its page is new or not held |
| RecordRuns.EntryServed | src/record/rm_file_handle.cpp:19-256 | with several files open, one request on one of them keeps the pool backing all of them, and no pin moves but the one it keeps |
| RecordRuns.PoolServesFiles | src/record/rm_file_handle.cpp:19-256 | for any real pool in order that backs the files, every run of requests that get their frames: the pool stays in order, answers as the flat map, backs the resulting files, and each page gains exactly the pins left on it |
| RecordRuns.FileRunsAlone | src/record/rm_file_handle.cpp:44-156 | whatever the other files do, each file ends as its own operations leave it |
| RecordRuns.PinsRestoredIff | src/record/rm_file_handle.cpp:19-38 | after a run all pins are as before if and only if no request was a look-up, or a deletion or update without a record |
| RecordRuns.LookupsFillPool | src/record/rm_file_handle.cpp:19-38 | looking up one record on each of as many pages as frames are free of pins leaves every frame pinned |
| ScanRuns.ScanLooksUp | src/execution/executor_seq_scan.h:52-91 | the requests of a full scan, whose records are only read again by who takes them, look up exactly the stored records |
| ScanRuns.ScanAsks | src/record/rm_scan.cpp:34-65 | whatever is done with each record before the scan goes on, a scan visits every page, looks up every stored record, and requests nothing else but what is requested for the records |
| ScanRuns.ScanVisits | src/record/rm_scan.cpp:34-65 | from any page on, a scan fetches each page once and once more for every record on it |
| ReadRuns.ReadOnlyFed | src/record/rm_file_handle.cpp:19-38 | a run of look-ups and page visits over any files changes none of them, and whether it finds its frames depends only on which pages are held; each page looked up stays held |
| ReadRuns.ReadOnlyFedIff | src/record/rm_file_handle.cpp:19-38 | any run that only reads gets its frames if and only if the pages held and those it looks up are no more than the frames and, if they take every frame, it visits no other page once all are held |
| ScanRuns.ScanFedIff | src/record/rm_scan.cpp:34-65 | a full scan whose records are read any number of times gets a frame for every page if and only if before each page that is not held it meets fewer unheld pages with a record than there were free frames; then it leaves exactly the pages with a record pinned in addition |
| ScanRuns.PoolScanFedIff | src/record/rm_scan.cpp:34-65 | so on any real pool in order that backs the files |
| StatementRuns.JoinLooksUp | src/execution/executor_nestedloop_join.h:46-114 | a join of two scans looks up exactly the record-bearing pages of the left table and, if some left record passes its own conditions, of the right one |
| StatementRuns.JoinFedIff | src/execution/executor_nestedloop_join.h:46-114 | such a join gets its frames if and only if the pages held and those pages are no more than the frames and, if they take every frame, no record-free page is visited once all are held; without record-free pages the count alone decides |
| StatementRuns.HeldFed | src/record/rm_file_handle.cpp:96-156 | look-ups, deletions and updates on pages that are held always get their frames, and leave the file as they do by themselves |
| StatementRuns.DeleteFedIff | src/execution/executor_delete.h:39-47 | DELETE gets its frames if and only if its scan does, and then removes exactly the listed records |
| StatementRuns.UpdateFedIff | src/execution/executor_update.h:40-71 | UPDATE gets its frames if and only if its scan does, and then changes exactly the listed records |
| Reopen.HdrReads | src/record/rm_defs.h:22-28 | the five fields of the file header read back from page 0 as written |
| Reopen.HdrSlices | src/record/rm_defs.h:22-28 | the five fields stand in page 0 one after the other, four bytes each, in the order of the structure |
| Reopen.ClosedHolds | src/record/rm_manager.h:77-83 | after close_file the disk holds the header and, byte for byte, the typed pages of the file |
| Reopen.ClosedPool | src/record/rm_manager.h:77-83 | what close_file does to the pool of a run is what RmManager.CloseFile does |
| Reopen.OpenedIff | src/record/rm_file_handle.h:55-63 | on any pool: after open_file it is in order and shows the file opened if and only if the pages resident under the descriptor are that file's |
| Reopen.StaleFetched | src/storage/buffer_pool_manager.cpp:56-77 | a page resident under the descriptor is fetched as it is, from whatever file its bytes are |
| Reopen.ReopenedInNewPool | src/record/rm_manager.h:69-83 | a file closed and opened in another pool has a handle to the same file, and that pool backs it |
| Reopen.ReopenedInSamePool | src/record/rm_manager.h:69-83 | so it does in the same pool under the same descriptor, with the other files still backed |
| Reopen.RunSkips | src/record/rm_file_handle.cpp:166-214 | over every run that never fetches page 0 the header page stays out of the frames |
| Reopen.SessionSurvives | src/record/rm_manager.h:69-83 | after every run of requests that get their frames, closing a file and opening it in the next pool gives a handle to exactly the file the run led to, backed by that pool and ready for another session |
| Reopen.RmManager.CloseFile | src/record/rm_manager.h:77-83 | writes the header in front of page 0 and then every resident page of the file; no frame is given up |
| Reopen.RmManager.OpenFile | src/record/rm_manager.h:69-72 | reads the header, throws if there is none, and sets the page counter to what it says; the pool stays in order if the pages resident under the descriptor are the file's |
| RecordRuns.NewFileBacked | src/record/rm_file_handle.h:55-63 | a file just created and opened is backed by any pool whose counter was set to its page count |
| BufferPool.BufferPoolManager.constructor | src/storage/buffer_pool_manager.h:37-53 | all frames free, tables empty, replacer of pool size |
| BufferPool.BufferPoolManager.FindVictimPage | src/storage/buffer_pool_manager.cpp:18-33 | free list first, then the replacer; the state changes as Pool.Take says |
| BufferPool.BufferPoolManager.FetchPage | src/storage/buffer_pool_manager.cpp:56-115 | moves exactly as Pool.Fetch says if the page can be read; if not, does nothing while every frame is pinned, and otherwise throws and leaves the state Pool.FailedFetch |
| BufferPool.BufferPoolManager.UnpinPage | src/storage/buffer_pool_manager.cpp:123-166 | moves exactly as Pool.Unpin says, error returns included |
| BufferPool.BufferPoolManager.FlushPage | src/storage/buffer_pool_manager.cpp:173-202 | answers true if and only if the page is resident; then its bytes are on disk, the frame keeps them and is clean; every other page on disk and every other frame is as before |
| BufferPool.BufferPoolManager.NewPage | src/storage/buffer_pool_manager.cpp:209-261 | moves exactly as Pool.New says: with every frame pinned nothing happens and no page number is used up; otherwise the frame holds a zeroed page under the next number of the file, resident before nowhere, pinned once |
| BufferPool.BufferPoolManager.DeletePage | src/storage/buffer_pool_manager.cpp:268-310 | moves exactly as Pool.Delete says: it fails if and only if the page is held; a resident page goes to the disk if dirty, out of the table, and its frame to the end of the free list; otherwise nothing changes |
| BufferPool.BufferPoolManager.FlushAllPages | src/storage/buffer_pool_manager.cpp:316-329 | moves as Pool.FlushAll says; on disk, exactly the resident pages of the file have their frame's bytes and every other page is as before |
| BufferPool.DiskManager.AllocatePage | src/storage/disk_manager.cpp:76-80 | returns the file's counter and advances it by one |
| BufferPool.DiskManager.WritePage | src/storage/disk_manager.cpp:30-45 | replaces one page |
| BufferPool.DiskManager.ReadPage | src/storage/disk_manager.cpp:54-69 | the page last written; fails if and only if the page was never written |
| BufferPool.BufferPoolManager.WriteData | src/storage/page.h:62-62 | a holder of a pinned page overwrites its bytes and nothing else |
| HeapFile.NextBit | src/record/bitmap.h:37-44 | the first position after the given one that holds the bit, or the end; all positions skipped hold the other bit |
| HeapFile.CountAll | src/record/rm_file_handle.cpp:71-74 | a page is full exactly when all bits are set and empty exactly when none is |
| HeapFile.InsertHasRoom | src/record/rm_file_handle.cpp:53-59 | the page that an insertion picks exists and has a free slot |
| HeapFile.InsertRefines | src/record/rm_file_handle.cpp:44-80 | insertion keeps counters, bitmaps and chain, and adds the record under a new rid, changing nothing else |
| HeapFile.InsertTakesFirstGap | src/record/rm_file_handle.cpp:44-80 | an insertion takes the first free slot of the page at the head of the chain, or the first slot of a new page if the chain is empty; the page leaves the chain if and only if it is full now |
| HeapFile.DeleteRefines | src/record/rm_file_handle.cpp:96-128 | deletion keeps them and removes exactly that rid; an unknown page is an error without effect |
| HeapFile.DeleteLinksFull | src/record/rm_file_handle.cpp:96-128 | a page that was full becomes the head of the chain in front of the old one; otherwise the chain stays |
| HeapFile.UpdateRefines | src/record/rm_file_handle.cpp:136-156 | update overwrites the record if it is stored, does nothing if not |
| HeapFile.GetIsLookup | src/record/rm_file_handle.cpp:19-38 | get_record is map look-up, null when absent, an error for an unknown page |
| HeapFile.NewPageKeepsPages | src/record/rm_file_handle.cpp:188-214 | the page the pool returns is the expected next one, was not in use, and adds no record |
| HeapFile.NewPageKeepsChainIffNoneFree | src/record/rm_file_handle.cpp:204-214 | creating a page keeps a chain of exactly the pages with room if and only if there was none with room |
| HeapFile.HalfFullPageIsDropped | src/record/rm_file_handle.cpp:204-214 | on a file with one half-full page, the chain of a newly created page no longer reaches the free slot |
| HeapFile.PerformRefines | src/record/rm_file_handle.cpp:44-156 | each operation is one step of a finite map, and keeps record size and capacity |
| HeapFile.RunRefinesMap | src/record/rm_file_handle.cpp:44-256 | over every run the file is a finite map from rid to record; the chain visits exactly the non-full pages once each, counts equal set bits, page numbers are 1..num_pages-1 and the allocation counter equals num_pages |
| HeapFile.CreatedOk | src/record/rm_manager.h:42-49 | a file just created is empty and satisfies the invariant |
| HeapFile.FindBit | src/record/bitmap.h:37-44 | the search loop finds what NextBit says |
| HeapFile.RmFileHandle.constructor | src/record/rm_file_handle.h:55-63 | opening a file sets the allocation counter to the header's page count |
| HeapFile.RmFileHandle.GetRecord | src/record/rm_file_handle.cpp:19-38 | reads as Get says |
| HeapFile.RmFileHandle.CreateNewPageHandle | src/record/rm_file_handle.cpp:188-214 | moves as CreateNewPage says |
| HeapFile.RmFileHandle.CreatePageHandle | src/record/rm_file_handle.cpp:222-238 | the head of the chain, or a new page if the chain is empty |
| HeapFile.RmFileHandle.InsertRecord | src/record/rm_file_handle.cpp:44-80 | moves as Insert says and keeps the invariant |
| HeapFile.RmFileHandle.DeleteRecord | src/record/rm_file_handle.cpp:96-128 | moves as Delete says and keeps the invariant; errors leave the file alone |
| HeapFile.RmFileHandle.UpdateRecord | src/record/rm_file_handle.cpp:136-156 | moves as Update says and keeps the invariant; errors leave the file alone |
| HeapFile.RmFileHandle.ReleasePageHandle | src/record/rm_file_handle.cpp:243-256 | pushes the page in front of the chain |
| PageLayout.CapacityFits | src/record/rm_manager.h:35-49 | for every accepted record size the capacity is positive and log sequence number, header, bitmap and slots fit in the page |
| PageLayout.CapacityClosest | src/record/rm_manager.h:46-49 | the capacity solves the inequality of the formula, and no larger number does but perhaps the next |
| PageLayout.OneMoreSolves | src/record/rm_manager.h:46-49 | for records of one byte, one more solves it |
| PageLayout.PageBytes | src/record/rm_file_handle.h:31-40 | in a page, the next free page is the int at byte 4, the number of records the int at byte 8, slot i has the bit 7 - i % 8 of byte 12 + i / 8, and the records follow the bitmap back to back |
| PageLayout.SlotsApart | src/record/rm_file_handle.h:31-40 | slots overlap neither each other nor header and bitmap, and end inside the page |
| PageLayout.SetResetOneBit | src/record/bitmap.h:25-31 | set and reset change exactly the one bit |
| Values.EncodeReads | src/record/rm_file_handle.h:32-32 | an int reads back from its four bytes |
| Values.EncodeBytes | src/record/rm_file_handle.h:32-32 | the four bytes are the digits of the number to the base 256, lowest first, in two's complement |
| Values.Int32Bytes | src/index/ix_index_handle.h:24-25 | an int read from bytes is the 32-bit number with these digits |
| PageLayout.HeaderWrites | src/record/rm_file_handle.h:31-35 | writing a header field changes that field of the typed page and nothing else |
| PageLayout.SlotWrites | src/record/rm_file_handle.h:38-40 | writing a slot's bytes changes that slot of the typed page and nothing else |
| PageLayout.BitWrites | src/record/bitmap.h:25-28 | setting or resetting a bit changes that bit of the typed page and nothing else |
| PageLayout.FillBytesRefines | src/record/rm_file_handle.cpp:60-68 | the byte writes of an insertion are the typed insertion |
| PageLayout.ClearBytesRefines | src/record/rm_file_handle.cpp:112-123 | the byte writes of a deletion are the typed deletion |
| PageLayout.InitBytesRefines | src/record/rm_file_handle.cpp:200-207 | the byte writes of create_new_page_handle leave a page without records, whatever it held |
| PageLayout.NewPageRefines | src/record/rm_file_handle.cpp:188-207 | on the zeroed page of new_page they give the empty typed page |
| PageHandle.RmPageHandle.SetBitAt | src/record/bitmap.h:25-25 | in place, sets one bit of the typed page and nothing else |
| PageHandle.RmPageHandle.ResetBitAt | src/record/bitmap.h:28-28 | in place, resets one bit of the typed page and nothing else |
| PageHandle.RmPageHandle.IsSetAt | src/record/bitmap.h:31-31 | reads the bit of the typed page from the bytes |
| PageHandle.RmPageHandle.NextBit | src/record/bitmap.h:37-47 | the search over the bytes finds what HeapFile.NextBit finds on the typed page |
| PageHandle.RmPageHandle.Init | src/record/rm_file_handle.cpp:200-207 | in place, header and bitmap of a page without records |
| PageHandle.RmPageHandle.SetSlot | src/record/rm_file_handle.cpp:150-152 | in place, overwrites one record |
| PageHandle.RmPageHandle.Fill | src/record/rm_file_handle.cpp:56-68 | in place, fills the first free slot as the typed insertion does |
| PageHandle.RmPageHandle.Clear | src/record/rm_file_handle.cpp:112-123 | in place, clears a slot as the typed deletion does, linking a page that was full |
| Values.SwappedComparison | src/optimizer/planner.cpp:91-96 | mirroring operands and operator keeps the truth of a comparison, for every type, length and operator |
| Values.ComparePrefix | src/index/ix_index_handle.h:21-38 | a comparison depends only on the bytes of the two columns |
| Comparison.IntComparison | src/index/ix_index_handle.h:23-27 | for all 32-bit x and y and each of the six operators, the comparison of their bytes holds if and only if x op y |
| Comparison.FloatComparison | src/index/ix_index_handle.h:28-32 | floats that are numbers compare by their value, the two zeros alike; a NaN compares equal to everything |
| Comparison.NaNIs | src/index/ix_index_handle.h:28-32 | not a number is what has the largest exponent and a fraction |
| Comparison.StringComparison | src/index/ix_index_handle.h:33-34 | strings compare less if and only if they have the smaller unsigned byte where they differ first, and equal if and only if they do not differ within the length |
| Comparison.LiteralBytes | src/common/common.h:56-74 | a number is its four bytes, refused if and only if the column has not four; a string is its characters followed by zeros, refused if and only if it is longer than the column |
| Comparison.CondMeans | src/execution/executor_seq_scan.h:117-160 | a condition on a record holds if and only if the operator holds between what the left column's bytes and the right column's or literal's bytes stand for |
| Comparison.IntCondMeans | src/execution/executor_seq_scan.h:117-160 | in particular x op y for a column that encodes x and a literal or column that encodes y |
| Values.GetColNone | src/execution/executor_abstract.h:47-55 | no column is found, so that get_col throws, if and only if none has that table and name |
| Values.GetColFirst | src/execution/executor_abstract.h:47-55 | the column found is the first of that table and name |
| Values.JudgeExact | src/execution/executor_seq_scan.h:117-166 | eval_conds throws if and only if a condition with a missing column is reached, all before it being true; otherwise it is true if and only if all conditions are, each meaning what Comparison.CondMeans says |
| KeyOrder.KeyCompareAntisymmetric | src/index/ix_index_handle.h:40-48 | comparing keys the other way round changes the sign |
| KeyOrder.KeyCompareTransitive | src/index/ix_index_handle.h:40-48 | among keys without NaN the order of multi-column keys is transitive, equality included |
| KeyOrder.TransitiveThroughIff | src/index/ix_index_handle.h:28-48 | for every key and every list of columns: the order of NaN-free keys is transitive through that key if and only if it holds no NaN |
| KeyOrder.TransitiveIffNoFloats | src/index/ix_index_handle.h:28-48 | over all keys of given columns the order is transitive if and only if no column is a float |
| KeyOrder.CompareKeys | src/index/ix_index_handle.h:40-48 | the loop with a running offset computes the column-by-column order |
| KeyOrder.FirstColumnDecides | src/index/ix_index_handle.h:40-48 | the first column that compares unequal decides, and keys without one are equal |
| KeyOrder.ColumnAt | src/index/ix_index_handle.h:40-48 | a column is compared by the bytes that stand at its offset, the sum of the lengths before it |
| Scan.ScanVisitsEachOnce | src/record/rm_scan.cpp:18-65 | the rids of a scan are exactly the stored ones, strictly ascending by page and slot |
| Scan.SkipEmptySlots | src/record/rm_scan.cpp:40-58 | the next set bit skips no stored record |
| Scan.RmScan.constructor | src/record/rm_scan.cpp:18-29 | all stored rids are ahead |
| Scan.RmScan.Next | src/record/rm_scan.cpp:34-65 | moves past exactly one stored rid and terminates |
| Scan.RmScan.Search | src/record/rm_scan.cpp:39-64 | stops on the first stored rid after the given position, or at the end if there is none |
| Scan.RmScan.IsEnd | src/record/rm_scan.cpp:70-76 | true if and only if no stored rid is ahead |
| Scan.SiftExact | src/execution/executor_seq_scan.h:52-91 | a scan over any rids throws if and only if some stored record among them makes a condition throw; up to there it lists exactly the records that pass, in order |
| Scan.RowsExact | src/execution/executor_seq_scan.h:52-91 | a full scan throws if and only if some stored record reaches a condition on a missing column with all conditions before it true; if not, it lists exactly the selected records, ascending |
| Scan.SeqScanExecutor.BeginTuple | src/execution/executor_seq_scan.h:52-67 | restarts cleanly with all rows ahead; throws if and only if an exception comes before the first row |
| Scan.SeqScanExecutor.NextTuple | src/execution/executor_seq_scan.h:73-91 | moves past exactly one row; throws if and only if an exception comes before the next |
| Scan.SeqScanExecutor.Next | src/execution/executor_seq_scan.h:98-101 | the bytes of the current record |
| Scan.CollectRids | src/portal.h:78-81 | the collecting loop throws if and only if the scan does, and otherwise yields exactly its rids in order |
| Join.SplitLookupAgrees | src/execution/executor_nestedloop_join.h:147-204 | looking columns up in the two child records agrees with reading the concatenated record at the shifted offsets |
| Join.JoinColsFitSide | src/execution/executor_nestedloop_join.h:29-44 | if the children's columns fit their records, every joined column lies inside one side |
| Join.SplitJudgeAgrees | src/execution/executor_nestedloop_join.h:206-210 | the conditions judged on the two child records give what they give on the concatenated record, exceptions included |
| Join.ColumnPresent | src/execution/executor_nestedloop_join.h:29-44 | a name is found among the columns of a tree of executors if and only if its table is a leaf and has that column |
| Join.ColumnReads | src/execution/executor_nestedloop_join.h:116-131 | in the record of a tree of any depth, the bytes found under a name are those of the table's own column |
| Join.CondAgrees | src/execution/executor_nestedloop_join.h:147-204 | a condition throws on a tree's record if and only if an operand's table is not in the row, and otherwise is true of the record if and only if it is true of the row |
| Join.JudgeAgrees | src/execution/executor_nestedloop_join.h:206-210 | so is a list of conditions |
| Executors.LeafYield | src/execution/executor_seq_scan.h:52-91 | the scan of a table's file delivers the rows that the leaf of the plan yields, and throws when it does |
| Executors.PairVerdict | src/execution/executor_nestedloop_join.h:147-210 | at a join of an oriented plan the conditions never throw, and decide on the two children's bytes what they decide on the row |
| Executors.Executor.Scan | src/execution/executor_seq_scan.h:34-46 | an executor for a table scan that has not begun |
| Executors.Executor.Join | src/execution/executor_nestedloop_join.h:29-44 | an executor over any two executors, joins included: left columns, then right columns at shifted offsets |
| Executors.Executor.BeginTuple | src/execution/executor_nestedloop_join.h:46-74 | for any tree: stands before all rows of the plan, or at the end if the join had ended before; throws if and only if an exception comes before the first row |
| Executors.Executor.NextTuple | src/execution/executor_nestedloop_join.h:76-114 | moves past exactly one row of the tree; throws if and only if an exception comes before the next |
| Executors.Executor.Next | src/execution/executor_nestedloop_join.h:116-131 | the bytes of the current row: left, then right, down the tree |
| Executors.Executor.IsEnd | src/execution/executor_nestedloop_join.h:135-138 | true if and only if no row is ahead |
| Executors.Executor.SkipRight | src/execution/executor_nestedloop_join.h:84-91 | the inner loop finds the next right row that matches the current left row, or none, or throws |
| Executors.Executor.Hunt | src/execution/executor_nestedloop_join.h:54-73 | both loops find the next matching pair, restarting the right child for each left row |
| Delivery.ScanYieldExact | src/execution/executor_seq_scan.h:52-91 | a leaf throws if and only if some row passes all conditions before the first foreign one and there is a foreign one; otherwise it delivers the rows that pass |
| Delivery.YieldThrowsIff | src/execution/executor_nestedloop_join.h:46-114 | a plan throws if and only if a leaf whose left siblings all deliver a row has a row that reaches a foreign condition |
| Delivery.DeliveredExact | src/execution/executor_nestedloop_join.h:60-73 | the executors of a well-scoped plan throw nothing and deliver each row of the plan once that takes the first left row wherever a right child is a join, and no other |
| Delivery.ExecutedPlan | src/execution/executor_nestedloop_join.h:60-73 | they answer the query if and only if every answer takes the first left row at such joins; with two tables they always do |
| Delivery.PlannedExecution | src/execution/executor_nestedloop_join.h:60-73 | on the planner's trees that first left row is the first of the rows that the left child's plan stands for, so which answers come out is decided by the data alone |
| Delivery.ExecutedInFullIff | src/execution/executor_nestedloop_join.h:60-73 | over tables of two rows or more, with conditions that all rows satisfy, they answer the query if and only if no right child is a join |
| Witnesses.EndedJoinLosesRow | src/execution/executor_nestedloop_join.h:60-73 | three tables of one, one and two rows, no conditions: one row of two is delivered |
| Delivery.QueryDelivered | src/optimizer/planner.cpp:44-59 | had joins been restartable, a plan would throw if and only if an opened leaf has a row that reaches a foreign condition, and otherwise answer the query; an ill-scoped plan would throw whenever there is an answer |
| Delivery.UnscopedDelivered | src/optimizer/planner.cpp:50-57 | the executors of an ill-scoped plan of the planner's shape throw whenever the query has an answer; if they do not throw, they deliver nothing and there is none |
| Select.Convert | src/portal.h:154-178 | the executors built from a plan stand for that plan |
| Select.StartSelect | src/portal.h:68-73 | plan, executors and projection of a SELECT, ready to begin; the projection throws if and only if a selected column belongs to no table of the FROM list |
| Select.SelectFrom | src/execution/execution_manager.cpp:156-157 | the loop takes exactly the rows delivered, each projected record showing the selected columns' bytes; all of the plan's rows come if and only if the root has not ended before or there are none |
| Select.RunSelect | src/portal.h:68-73 | a whole SELECT: a selected column of no table in the FROM list throws with no record; otherwise the records show the rows that the executors of the plan deliver, in their order, and the tables of the plan stand in the order PlanOrder.BlocksFor gives, so it is stated which rows these are; it throws if and only if a row reaches a misplaced condition in an opened scan; if every same-table condition is about the first table it throws nothing and the rows are the answers that take the first left row at joins with a join on the right, all answers with up to two tables and, over tables of two rows or more without restricting conditions, only then; if not, it throws whenever there is an answer, and otherwise throws or delivers nothing; one table's query is answered for the conditions over that table |
| Projection.LayOut | src/execution/executor_projection.h:25-41 | each selected column is found and laid back to back, an error if and only if one is missing |
| Projection.PackedApart | src/execution/executor_projection.h:31-41 | relocated columns do not overlap and end inside the record |
| Projection.SelectedColumnReads | src/execution/executor_projection.h:53-74 | a selected column is found under its name in the projected row, with the same type, length and bytes |
| Projection.ProjectionKeepsConditions | src/execution/executor_projection.h:53-74 | a condition over selected columns means the same before and after the projection |
| Projection.ProjectionExecutor.Next | src/execution/executor_projection.h:53-74 | the copying loop fills every selected column and disturbs none already filled |
| Dml.LastSetWins | src/execution/executor_update.h:46-64 | a column ends with the value of the last clause that sets it |
| Dml.SetColumnShows | src/execution/executor_update.h:46-64 | after UPDATE a column set to the int n decodes to n, a float column has the literal's bytes, a string column its characters followed by zeros |
| Dml.FaultExact | src/execution/executor_update.h:46-60 | a clause throws unless the first column of its name has the literal's type and room for it |
| Dml.UnsetColumnsStay | src/execution/executor_update.h:46-64 | columns no clause sets keep their bytes |
| Dml.UpdateExecutor.Change | src/execution/executor_update.h:46-64 | all clauses in order, with the effect Dml.SetColumnShows states, or the error of the first faulty one |
| Dml.UpdateExecutor.Next | src/execution/executor_update.h:40-71 | every listed record is changed once, or the first one throws and nothing has changed |
| Dml.ReplacedOnce | src/execution/executor_update.h:42-68 | changing the listed records one after another is changing each from its old value |
| Dml.DeleteExecutor.Next | src/execution/executor_delete.h:39-47 | exactly the listed rids are gone, if all name pages the file has; otherwise the first that does not ends the loop with an exception, and exactly the rids before it are gone |
| Dml.ScanQuietIff | src/portal.h:86-98 | the scan of a statement throws if and only if some stored record makes a condition throw |
| Dml.DeleteStatement | src/portal.h:86-98 | DELETE throws if and only if the scan does, changing nothing; otherwise it leaves exactly the records that did not satisfy the conditions before it ran |
| Dml.UpdateStatement | src/portal.h:75-85 | UPDATE changes exactly the records that satisfied the conditions before it ran and keeps all rids; it throws if and only if the scan does or a clause is faulty and some record is selected, changing nothing |
| Plans.MirrorHolds | src/optimizer/planner.cpp:90-97 | a mirrored condition is true of the same rows |
| Plans.RowsExact | src/optimizer/planner.cpp:142-249 | a well-scoped tree yields exactly the cross-product rows that satisfy the conditions at all its nodes, each once |
| Plans.PlanHoldsIffClasses | src/optimizer/planner.cpp:142-249 | where in the tree a condition hangs, and which way round, does not matter |
| Plans.PlanMeansQuery | src/optimizer/planner.cpp:142-249 | any well-scoped plan with each table once and each condition once up to mirroring answers the query |
| Planner.PopConds | src/optimizer/planner.cpp:44-59 | the erasing loop takes exactly the conditions of the table, in order, and keeps the others in order |
| Planner.TakenKeptSplit | src/optimizer/planner.cpp:44-59 | no condition is lost or duplicated by the split |
| Planner.PushIsAddAtLowest | src/optimizer/planner.cpp:61-102 | the answer codes, and that the condition lands at exactly one node: the lowest with both tables below |
| Planner.AddKeepsLeaves | src/optimizer/planner.cpp:61-102 | pushing touches no leaf |
| Planner.AddKeepsOrientation | src/optimizer/planner.cpp:89-98 | the pushed condition is turned so that its left column comes from the left subtree |
| Planner.AddAddsOneClass | src/optimizer/planner.cpp:86-99 | pushing adds exactly one condition, up to mirroring |
| Planner.PushFilters | src/optimizer/planner.cpp:61-102 | push_conds returns 3 and the tree's rows become the old ones filtered by the condition |
| QueryPlanner.PushConds | src/optimizer/planner.cpp:61-102 | the recursion over mutable nodes does what Push says to the tree it represents and touches no other node |
| QueryPlanner.PopScan | src/optimizer/planner.cpp:104-117 | finds the table's scan and marks it used; null and no change if and only if there is none |
| QueryPlanner.MakeScans | src/optimizer/planner.cpp:145-161 | one scan per table; the first table takes every same-table condition, each table takes those against its columns and constants, in their order, and what is left is in order and lost by none |
| QueryPlanner.PlaceCondition | src/optimizer/planner.cpp:196-233 | each turn attaches a condition over the FROM list exactly once and joins in exactly its tables not joined yet; a null child arises only from a condition over another table |
| QueryPlanner.JoinConditions | src/optimizer/planner.cpp:196-233 | the loop attaches every condition exactly once if all are over the FROM list; a null child arises only if some condition is not |
| QueryPlanner.JoinRest | src/optimizer/planner.cpp:239-245 | the tables left over are joined in, each once |
| PlanTrees.LeavesScopedIff | src/optimizer/planner.cpp:148-161 | over any tree on these scans, every leaf gets only its own conditions if and only if same-table conditions are about the first table |
| PlanTrees.OutOfScopeNoPlan | src/optimizer/planner.cpp:142-249 | no tree over the scans is a plan for the query if a condition, other than a comparison of two columns of one table, is about a table that is not in the FROM list, which the analyzer accepts |
| PlanTrees.AttachingAll | src/optimizer/planner.cpp:163-166 | with one table, the conditions that reach the plan are all of them if none but comparisons of two columns of one table is about another table |
| QueryPlanner.MakeOneRel | src/optimizer/planner.cpp:142-249 | each table is a leaf once; the tree is a plan for the query, with each condition hanging once, if and only if every condition is over tables of the FROM list, apart from comparisons of two columns of one table, which the first table takes; there is a null child only if some condition is not and there are two tables or more; leaves are well scoped if and only if same-table conditions are about the first table; some join has a join on its right if and only if there are three tables or more; one table's plan is one for the conditions it takes; the tables stand in the order PlanOrder.BlocksFor gives for the FROM list and the conditions, and each leaf has the conditions PlanOrder.LeafConds gives, in their order |
| PlanOrder.BlocksAreLeaves | src/optimizer/planner.cpp:142-249 | the left children along the right edge, from the root down, hold the leaves from left to right |
| PlanOrder.NoCrossingReversed | src/optimizer/planner.cpp:235-246 | without conditions between tables the leaves are the FROM list backwards, each a left child by itself |
| PlanOrder.FirstCrossingInnermost | src/optimizer/planner.cpp:181-246 | with them, the tables of the first such condition stand innermost in its order, later conditions put the tables they bring in front of those, and the tables left over stand before all, the last of the FROM list first |
| PlanOrder.FirstRowsAre | src/execution/executor_nestedloop_join.h:60-73 | a row comes through if and only if it takes the first row of every left child along the right edge but the last |
| PlanOrder.FirstTwoVary | src/optimizer/planner.cpp:235-246 | without conditions between tables: if and only if it takes, of every table but the first two of the FROM list, the first row that passes the table's own conditions |
| PlanTrees.DecidedByGuard | src/optimizer/planner.cpp:50-57 | for any plan of the planner's shape, on any database: if same-table conditions are about the first table, the executors throw nothing and deliver exactly the answers that take the first left row at joins with a join on the right; if not, they throw whenever there is an answer, and otherwise throw or deliver nothing |
| Witnesses.MisplacedConditionThrows | src/optimizer/planner.cpp:50-57 | FROM a, b WHERE b.x = b.y with one row each and no answer: the plan throws |
| Witnesses.ForeignConditionDropped | src/optimizer/planner.cpp:163-166 | FROM a WHERE b.x = 1: the condition is dropped, the plan is the bare scan and delivers a row that does not satisfy it |
| Catalog.ColReads | src/system/sm_meta.h:31-39 | a printed column reads back, with the rest of the text untouched |
| Catalog.ColText | src/system/sm_meta.h:31-35 | the printed column is its table, its name, 0, 1 or 2 for INT, FLOAT or STRING, length, offset, and 0 or 1 for the flag, one space between any two |
| Catalog.ColTextReads | src/system/sm_meta.h:37-39 | such a text with 0, 1 or 2 in the third place reads as an INT, FLOAT or STRING column |
| Catalog.SampleCols | src/system/sm_meta.h:37-39 | "t c 0 4 0 0" reads as an INT column of four bytes, and so on |
| Catalog.IndexUnfolds | src/system/sm_meta.h:49-55 | the printed index is its table, total length and number of columns with spaces between, then its columns |
| Catalog.LinesInOrder | src/system/sm_meta.h:127-137 | columns and indexes are printed in order, with a line break before each column of an index and after each other line |
| Catalog.TablesInOrder | src/system/sm_meta.h:187-193 | so are the tables, each followed by a line break |
| Catalog.DbUnfolds | src/system/sm_meta.h:187-193 | the printed catalog is its name, the number of tables and the tables |
| Catalog.IndexReads | src/system/sm_meta.h:49-65 | a printed index with a true column count reads back |
| Catalog.TabReads | src/system/sm_meta.h:127-154 | a printed table reads back through its two counted lists |
| Catalog.TabUnfolds | src/system/sm_meta.h:127-137 | the printed table is its name, the number of columns, the columns, the number of indexes and the indexes |
| Catalog.DbReads | src/system/sm_meta.h:187-204 | a printed catalog reads back, whatever order its tables come in |
| Catalog.NumberReads | src/defs.h:15-29 | a printed decimal, negative or not, reads back |
| Catalog.DecimalText | src/system/sm_meta.h:31-35 | the last character of a printed number is 48 plus its value modulo ten, and what precedes it prints its value divided by ten; a negative number has a minus sign in front |
| Catalog.DecimalValue | src/system/sm_meta.h:37-39 | each digit read makes ten times the value and the digit |
| Catalog.RoundTripIff | src/system/sm_meta.h:187-204 | the round trip succeeds if and only if names, keys and counts are as required |
| Catalog.UnreadableLost | src/system/sm_meta.h:187-204 | a name with a space, a table filed under another name, and an index that declares a column too many are each not restored |
| Catalog.IStream.Db | src/system/sm_meta.h:195-204 | the extraction loop reads what ReadDb reads, and fails when it fails |
| Catalog.IStream.Tab | src/system/sm_meta.h:139-154 | the extraction loops read what ReadTab reads |
| Catalog.Reload | src/system/sm_meta.h:187-204 | printing and re-reading with the operators restores the catalog if and only if it is well formed |
| Matching.MaxBipartiteMatchState.TryAugment | deps/googletest/googlemock/src/gmock-matchers.cc:184-208 | terminates; on failure leaves both vectors alone with a dead end as witness; on success restores their agreement, keeps matched nodes matched and turns only the given left node used |
| Matching.MaxBipartiteMatchState.Compute | deps/googletest/googlemock/src/gmock-matchers.cc:132-163 | a matching by edges of the graph, no node twice, and no matching is larger, each left node tried once |
| Matching.FindMaxBipartiteMatching | deps/googletest/googlemock/src/gmock-matchers.cc:228-230 | a maximum matching of any graph |
| Matching.CertifiedMaximum | deps/googletest/googlemock/src/gmock-matchers.cc:141-146 | the right nodes of failed searches bound every matching by the one found |
| Matching.AfterFailure | deps/googletest/googlemock/src/gmock-matchers.cc:147-155 | a failed search enlarges the set of right nodes no augmenting path leaves |
| Matching.AfterSuccess | deps/googletest/googlemock/src/gmock-matchers.cc:137-142 | a later augmentation never enters that set |
| BTree.IxIndexHandle.MaintainParent | src/index/ix_index_handle.cpp:460-477 | if every entry but the node's own is right before, every entry is right after; only entries above the node change; the early break is sound; it terminates |
| BTree.IxIndexHandle.FindChild | src/index/ix_index_handle.h:148-157 | the position of the child in its parent |
| BTree.RightTreeUnique | src/index/ix_index_handle.cpp:460-477 | shape and leaf keys leave only one tree whose entries are all right, so the repaired tree is determined |
| BTree.RepairMovesUp | src/index/ix_index_handle.cpp:466-473 | overwriting one entry can spoil only the entry one level up |
| BTree.NothingLeft | src/index/ix_index_handle.cpp:469-472 | when the entry compared is equal, or the root is reached, no entry is wrong |
| BTree.MemCmpZeroIffEqual | src/index/ix_index_handle.cpp:469-469 | memcmp gives zero exactly on equal keys |

## Left out

- BufferPool.DiskManager.ReadPage: the disk is a map of whole pages, so holes in the file that the system fills with zeros, and short reads, are not modelled.
- BufferPool.DiskManager.WritePage: failed writes. The one write shorter than a page, of the file header, is BufferPool.DiskManager.WriteFront.
- Reopen.RmManager.OpenFile: which descriptor the operating system gives, and paths, are not modelled; the pages of the file are handed in. A header whose page count is below the number of the file's pages is not followed.
- mark_dirty, which only sets the flag that unpin_page sets.
- Interleavings inside a method: every pool method holds the latch throughout, so each is one step.
- HeapFile.GetIsLookup: the rid has a page number of at least 1 and a slot number below the capacity, which is what the program's own callers pass; the source checks neither and would read memory beyond the bitmap or take the file header for a page.
- HeapFile.DeleteRefines: rids as for HeapFile.GetIsLookup.
- HeapFile.UpdateRefines: rids as for HeapFile.GetIsLookup.
- HeapFile.PerformRefines: rids as for HeapFile.GetIsLookup.
- HeapFile.RunRefinesMap: rids as for HeapFile.GetIsLookup.
- HeapFile.RmFileHandle.GetRecord: rids as for HeapFile.GetIsLookup.
- HeapFile.RmFileHandle.DeleteRecord: rids as for HeapFile.GetIsLookup.
- HeapFile.RmFileHandle.UpdateRecord: rids as for HeapFile.GetIsLookup.
- HeapFile.RmFileHandle.constructor: the header fields are handed in as read; Reopen.HdrReads and Reopen.SessionSurvives follow them from the disk.
- HeapFile.RmFileHandle.CreateNewPageHandle: the handle works on typed pages of its own, so the null page of an exhausted pool appears in RecordRuns.NullIffStarved and not here.
- HeapFile.NewPageKeepsPages: the counter is a field of the file here; RecordPool.ServedBacks ties it to the pool's.
- RecordPool.RequestServed: what the program does with a null page is undefined, so a run is followed up to its first starved request. A statement that an exception ends makes a first part of the requests of StatementRuns.
- RecordRuns.PoolServesFiles: the files' page numbers stay below 2 to the power of 31.
- insert_record at a given rid, an empty body in the source.
- Overflow of 32-bit counters and pin counts.
- B+ tree search, insertion, deletion and scans, create_index and drop_index, the sort executor, locks, transactions, logging and recovery: stubs in the source. All scans are sequential.
- BTree.IxIndexHandle.MaintainParent: node pages are a map; pinning them is not modelled.
- Executors.Executor.BeginTuple: called on a join only when it is new or has ended, which is all the executors and the SELECT loop do; the executors read the typed record file, so pins and null pages do not appear in them.
- QueryPlanner.MakeOneRel: a FROM list that names a table twice, which the analyzer accepts too, is not modelled; the rows are those of sequential scans. Of the tree for two tables or more with a condition over another table nothing is said but that it is no plan for the query.
- QueryPlanner.MakeScans: FROM lists as for QueryPlanner.MakeOneRel.
- Select.StartSelect: FROM lists as for QueryPlanner.MakeOneRel; with two tables or more, conditions are over tables of the FROM list.
- Delivery.QueryDelivered: as for Plans.PlanMeansQuery.
- Plans.PlanMeansQuery: the two columns of a condition have equal type and length; the analyzer checks the type, and for strings of unequal length ix_compare reads past the shorter one.
- Select.RunSelect: inputs as for Select.StartSelect; the text that the record printer makes of the records is left out.
- Dml.UpdateExecutor.Next: clauses are taken as they come from the analyzer, which makes the same checks before; assertion failures of init_raw count as errors.
- Insertion through InsertExecutor, which adds nothing over insert_record.
- Values.MemCmp: only the sign of memcmp.
- Catalog.ColReads: lengths and offsets are not negative; the source prints and reads negative ones back too.
- Catalog.RoundTripIff: column types are the three declared ones, and lengths and offsets are not negative.
- Catalog.IStream.Db: reads into a fresh value; the source adds to the tables and columns its target already holds, and close_db does not clear db_, so a second open_db in one session would add to the first catalog. What a failed extraction leaves in its target is not modelled; the stream is only known to have failed.
- Catalog.IStream.Tab: as for Catalog.IStream.Db.
- The look-ups is_col, is_index, get_index_meta and get_table: plain searches.
- Matching: size_t indices are unbounded, and the graph is a set of edges.
- Lexer, parser, sockets, client, record printing, directory commands, and the rest of the vendored test libraries.
