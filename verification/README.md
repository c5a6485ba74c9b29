# Storage, transactions and query steps of a small SQL engine

This project models five parts of an SQL engine written in C and proves properties of them:

- **The B+ tree** on 4096-byte pages: slotted leaves, leaf and inner splits, root growth, separators, parent
  pointers and the leaf chain, search and scan, leaf underflow, and overflow chains with their freelist.
- **The pager as a transaction machine**: the rollback journal and every crash of a commit, savepoints as journal
  offsets, the write-ahead log with its three readers and point-in-time restore, its CRC, and the five-level file lock.
- **Row versions**: stamping with creating and deleting transaction, visibility, the snapshot registry, vacuum and
  the release of retired page buffers.
- **The row codec**: varints, serial types, the header that counts its own length, and the trailers.
- **Query steps**: the chained hash join, and seeks by primary key and by index, against the nested loop and the scan.

Objects whose fields the C code updates in place are classes (`BTreeInsert.BTree`, `SlottedPage.LeafPage`,
`Overflow.Store`, `CrashRecovery.Transaction`, `Savepoints.Transaction`, `Wal.Writer`, `Mvcc.Store`,
`Snapshots.Registry`); their loops are loops with invariants. Each is proved against functions on values, and the
properties of these functions are lemmas.

## How the parts fit together

The tree has three layers. `BTreeShape` is a flat map from page numbers to what a page stands for: its key interval,
parent, children and cells. `BTreePages` says when stored pages agree with such a map; during an insertion one new page
may still be missing in its parent. `BTreeInsert`, `BTreeLeafInsert` and `BTreeShrink` change the pages step by step and
keep the agreement. `BTreeProper` then defines a well-formed page graph from the pages alone and shows that agreeing
pages are well formed, so the abstract map is only a means of proof. `LeafPartition` describes, without any page, how a
run of insertions divides the cells among the leaves; the page operations are proved to produce exactly this division.

A crash leaves any subset of the page writes since the last sync, and any prefix of the unsynced journal. A commit's
trace holds the machine after every disk operation, and a state is safe when recovery, however often it is interrupted
while the journal is still there, ends with the pages all old or, once the journal is gone, all new.

Page contents, row values that are no keys, and the WHERE predicate are parameters, as are clocks and LSN starts. Keys
are the INT first column and pairwise distinct in the tree theorems.

## Findings

Six properties do not hold of the code as it stands. The code is modelled as it is; for each there is an input that
shows the failure and the exact condition under which the property holds.

| what fails | shown by | holds exactly if |
|---|---|---|
| A count-based leaf split can overfill the left page, with ordinary rows of 1023 and 22 bytes (src/btree.c:1027-1060) | `SplitOverflow.RecordsOverfillSplit` | for cells that weigh between lo and hi: hi <= lo * (4076 / hi) (`LeafCapacity.SplitsFitIff`) |
| `get_page` leaves the bytes of a frame with a bad CRC in the buffer it returns (src/pager.c:692-733) | `Wal.TornFrameIsServed` | the page has a good frame, or lies in the file, or has no frame, or its first frame is a zero page (`Wal.FetchedIsView`) |
| Recovery removes the journal without syncing the pages it wrote, so a second crash can mix two commits (src/pager.c:361-395) | `CrashRecovery.SecondCrashMixes` | the first crash damaged no page, or the commit changed at most one (`CrashRecovery.SecondCrashAtomicIff`) |
| With all 64 slots taken a snapshot is handed out unrecorded; when the recorded ones end and two commits follow, vacuum takes rows from its readers and reclamation frees buffers they may read (src/pager.c:1767-1781) | `Snapshots.UnrecordedIsLost` | a slot is free when the snapshot is taken, over all later runs (`Snapshots.RegisterSafeIff`, `Snapshots.FirstMissIff`); with a slot stuck at LSN 0 nothing is ever taken (`Snapshots.StuckForever`) |
| An index seek yields a row once for each index entry of its key in the range, so a row whose indexed column was updated within the range comes out twice (src/executor.c:2464-2517, 4354-4411) | `AccessPath.SeekTwice` | no key of a wanted row has two entries in the range (`AccessPath.IndexSeek`, `AccessPath.SeekOnceIff`); over every run of statements that is so when no such key has two stored versions there (`AccessPath.SeekRepeatsNone`) |
| A reader that holds SHARED can see pages of no commit: ROLLBACK TO writes its images to the database file under RESERVED, uncommitted ones included, and the first write of a transaction flushes the cache there (src/pager.c:519-526, 1156-1160) | `FileLock.DirtyRead`, `Savepoints.UncommittedReachesFile` | every page written under RESERVED during the hold gets the content it has in the last commit, and nothing committed is cut off (`FileLock.ReadsOneCommitIff`) |

## Model

| member | source | states |
|---|---|---|
| BTreeSearch.Build | src/btree.c:807-1081 | From an empty root leaf, any run of distinct-key insertions that overfills no page leaves a well-formed page graph whose leaf chain holds exactly the inserted cells in key order; the leaves are divided as `Partition` says. |
| BTreeSearch.BuildBounded | src/btree.c:989-1060 | The same, leaf division and cell list included, for runs in which each leaf that splits, taken with its new cell, has balanced weights. |
| BTreeSearch.BuildBanded | src/btree.c:989-1060 | The same, leaf division and cell list included, for runs whose cells all lie in one balanced band of weights. |
| BTreeProper.WellFormed | src/btree.c:807-1081 | Pages that agree with an abstract tree are a B+ tree on their own terms: equal depth, exact separators, at most 32 keys, right parents, and a leaf chain equal to the in-order leaves with sorted cells. |
| BTreeContents.InsertAllSorts | src/btree.c:945-986 | Inserting distinct keys one by one gives the sorted permutation of the input. |
| BTreeSearch.Insert | src/btree.c:945-986 | Insertion at the found cursor keeps the tree's invariant, adds exactly the new cell in key order, and changes the leaves by one `Step`. |
| BTreeLeafInsert.LeafInsert | src/btree.c:945-986 | The cell goes in place when it fits, and the leaf is split otherwise; contents, invariant and leaf division as for `Insert`. |
| BTreeLeafInsert.LeafSplitAndInsert | src/btree.c:989-1081 | The leaf gives way to the two halves by count, every other leaf keeps its cells, and parent, separator, chain and root growth are right afterwards. |
| BTreeLeafInsert.Gather | src/btree.c:1004-1025 | The list that a split divides is the old cells with the new one at the cursor. |
| BTreeInsert.BTree.GetNodeMaxKey | src/btree.c:465-493 | Following right children finds the greatest key below a page. |
| BTreeInsert.BTree.UpdateKey | src/btree.c:794-805 | Exactly the separator found by the old key is replaced. |
| BTreeInsert.BTree.CreateNewRoot | src/btree.c:807-840 | The root's content moves to a new left page, its children are adopted, and the root gets one separator, the maximum of the left page. |
| BTreeInsert.BTree.PlaceChild | src/btree.c:843-881 | The slot array lists the children in order with exact maxima after a child is put in front, in the middle or as right child. |
| BTreeInsert.BTree.InternalInsert | src/btree.c:843-943 | A page that is pending below a parent, full or not, ends up listed, with the whole tree agreeing again and every leaf unchanged. |
| BTreeInsert.BTree.MoveUpperKids | src/btree.c:909-925 | The upper children of a full inner page move to the new page, which becomes their parent; the two slot arrays list the two parts. |
| BTreeInsert.BTree.InternalSplitAndInsert | src/btree.c:883-943 | A full inner page splits, the pending child goes to the right half, and the new page is inserted one level up or under a new root. |
| LeafCapacity.SplitFits | src/btree.c:1027-1060 | With balanced weights both halves of the split fit a page. |
| LeafCapacity.SplitsFitIff | src/btree.c:1027-1060 | Every split of cells weighing between lo and hi fits if and only if hi <= lo * (4076 / hi). |
| SplitOverflow.RecordsOverfillSplit | src/btree.c:1027-1060 | Encoded rows of an ordinary table for which a split overfills a page. |
| LeafPartition.BoundedRunIsSafe | src/btree.c:989-1060 | A run whose splits are all within the weight bound overfills no page. |
| LeafPartition.HomeInTree | src/btree.c:566-630 | The leaf that a descent reaches is the first one whose last key is not smaller, or the last. |
| BTreeSearch.FindOut | src/btree.c:677-706 | The cursor stands at the first in-order cell with a key at or above the target, or at the end. |
| BTreeSearch.Find | src/btree.c:632-675 | The recursive descent meets the same contract. |
| BTreeSearch.FoundOnce | src/btree.c:632-706 | Both searches return the same cursor: page, cell and end flag are determined. |
| BTreeSearch.StartOut | src/btree.c:714-726 | The leftmost leaf, with the end flag exactly for an empty tree. |
| BTreeSearch.Advance | src/btree.c:783-791 | The cursor moves by one cell of the whole sequence, and to the end after the last. |
| BTreeSearch.Scan | src/btree.c:714-791 | Start and advance visit every cell once, in key order, and end. |
| BTreeShrink.HandleUnderflow | src/btree.c:1237-1264 | For every tree whose leaves fit their pages: contents, invariant and page sizes are kept. A leaf of fewer than two cells gets one from its left, else right sibling if that keeps two, and is joined with it otherwise; no other leaf changes. |
| LeafPartition.RelievedIs | src/btree.c:1237-1264 | The leaf list that underflow handling computes is exactly that: one more cell and a sibling that keeps at least two, or one leaf less, of at most three cells. |
| BTreeShrink.LeafBorrowFromLeft | src/btree.c:1104-1152 | The last cell of the left sibling becomes the first of the leaf; separators stay exact. |
| BTreeShrink.LeafBorrowFromRight | src/btree.c:1155-1197 | The first cell of the right sibling becomes the last of the leaf; separators stay exact. |
| BTreeShrink.LeafMerge | src/btree.c:1199-1235 | Two neighbours become one leaf, which leaves the parent and the chain right, and a root without separators collapses. |
| BTreeShrink.CollapseRoot | src/btree.c:1355-1368 | A root with one child takes over its page: an equivalent tree, one level lower, with the same leaves. |
| LeafPartition.RelievedSized | src/btree.c:1104-1264 | Borrowing and merging never overfill a page, however unequal the cells. |
| SlottedPage.LeafPage.Defragment | src/btree.c:538-563 | All cells keep their order and bytes, and the free space is everything they do not take. |
| SlottedPage.LeafPage.Insert | src/btree.c:957-986 | The cell is placed, with all others kept, if and only if header, slots and bytes fit 4096; otherwise the caller must split. |
| SlottedPage.LeafPage.Split | src/btree.c:989-1060 | The two pages hold exactly the two halves of the old cells and the new one. |
| SlottedPage.LeafPage.Remove | src/btree.c:1416-1424 | Exactly one cell goes. |
| SlottedPage.SplitAlwaysFits | src/btree.c:1027-1060 | Balanced weights give byte pages that a split can fill. |
| Overflow.Store.WriteChain | src/btree.c:259-294 | The data get a chain of their own of the least length, and every other chain, the freelist and the tree pages stay apart from it. |
| Overflow.Store.ReadChain | src/btree.c:308-323 | A live chain reads back as its data, for every length. |
| Overflow.Store.FreeChain | src/btree.c:296-306 | The pages of the chain, and no others, join the freelist; no page is lost. |
| Overflow.Store.StoreRecord | src/btree.c:379-392 | The cell is a 1024-byte stub if and only if the record has 1024 bytes or more; every record stored before still reads back. |
| Overflow.Store.ReadRecord | src/btree.c:737-781 | A stored record reads back as exactly its bytes. |
| Overflow.Store.FreeRecord | src/btree.c:1404-1435 | A stub's own chain goes to the freelist, a short cell frees nothing, and exactly the records of the other cells still read back. |
| Overflow.Store.Alloc | src/pager.c:823-840 | The top of the freelist is reused first, then the file grows. |
| Overflow.Store.AllocTree | src/btree.c:989-1000 | A page taken for the tree belongs to nobody else: no chain, no freelist, no other tree page. |
| Overflow.FreedLists | src/pager.c:842-853 | Freeing a page keeps the freelist acyclic, disjoint from all chains, and every data page owned exactly once. |
| Overflow.Finish | src/btree.c:259-294 | A finished chain is a new live one, disjoint from all others. |
| Overflow.StubParts | src/btree.c:737-781 | A stub's length, first page and local bytes together with its chain are the record. |
| RecordCodec.PutVarint | src/catalog.c:307-315 | The bytes are the base-128 form of the number. |
| RecordCodec.GetVarint | src/catalog.c:317-327 | Reads back any 64-bit number and its length, whatever follows. |
| RecordCodec.VarintUnique | src/catalog.c:307-327 | No bytes are a varint of two numbers. |
| RecordCodec.CountHeader | src/catalog.c:521-529 | The loop ends at a header length that counts its own varint. |
| RecordCodec.SignedRoundTrip | src/catalog.c:329-541 | Two's complement in 1, 2 or 4 bytes is undone by sign extension. |
| RecordCodec.Encode | src/catalog.c:329-541 | The output is an encoding of row and trailers: self-counting header, column types, trailer types, bodies. |
| RecordCodec.Decode | src/catalog.c:551-670 | Any encoding, whatever bytes follow, gives back the row and the trailers and consumes exactly its length. |
| RecordCodec.DecodeTrailers | src/catalog.c:640-669 | The trailer loop returns exactly the trailers written and never takes a column for one. |
| RecordCodec.EncodingIsInjective | src/catalog.c:329-541 | No encoding is a proper prefix of another, and equal bytes mean equal rows and trailers. |
| RecordCodec.ExtractCol0 | src/btree.c:411-456 | The key read from a cell, or from the prefix that a stub keeps, is the row's first column. |
| Crc32.CalculateCrc32 | src/pager.c:219-230 | The loops compute the reflected CRC-32. |
| Crc32.CheckValue | src/pager.c:219-230 | The digits one to nine have the published check value of the reflected IEEE 802.3 CRC, CBF43926. |
| Crc32.StepInjective | src/pager.c:219-230 | One bit step is an injective map of the 32-bit state. |
| Crc32.FeedWord | src/pager.c:219-230 | Feeding up to four bytes is xoring their word and stepping 8 times a byte. |
| Crc32.BurstDetected | src/pager.c:219-230 | Messages of equal length that differ within four consecutive bytes have different checksums. |
| Wal.GetPage | src/pager.c:692-734 | The backward search returns the last good frame, else the file page, else what it left in the buffer. |
| Wal.FetchedIsView | src/pager.c:692-734 | This is the WAL view if and only if a checkable condition on the page's frames holds. |
| Wal.TornFrameIsServed | src/pager.c:692-734 | A frame with a bad CRC that `get_page` hands out. |
| Wal.PartialTailIgnored | src/pager.c:692-701 | Bytes of an incomplete last frame change no frame count. |
| Wal.Checkpoint | src/pager.c:1354-1391 | No page's view changes, for every frame sequence; the page count becomes the least one that covers the old count and every good frame, and exactly the cached pages past it stay cached. |
| Wal.BuildTable | src/pager.c:1628-1678 | The hash table holds exactly the last good frame of each page before the cut. |
| Wal.ApplyTable | src/pager.c:1698-1731 | Writing the table's pages over a copy of the file gives the view at the cut. |
| Wal.Restore | src/pager.c:1560-1731 | Full or until an LSN, the copy reads like the view at the cut; both refusals are exact. |
| Wal.FullRestore | src/pager.c:1628-1731 | A full restore reads like the live view on every page. |
| Wal.LsnsMonotone | src/pager.c:925-943 | LSNs in the log of any history never decrease. |
| Wal.CutAtCommit | src/pager.c:1641-1646 | Cutting at an LSN falls exactly behind the frames of a whole commit. |
| Wal.LogIsState | src/pager.c:783-792 | The view through the log of a history is the state after it. |
| Wal.PointInTime | src/pager.c:1628-1731 | The view at LSN n is the database right after the last commit with LSN at most n. |
| Wal.Writer.CommitPages | src/pager.c:925-943 | One commit appends one group of frames with one new LSN; page 0 is always written, and a whole page 0 reads back that LSN from its bytes 4084-4091. |
| Wal.StampReads | src/pager.c:931 | The stamped LSN, below 2^64, is read back from page 0, and all other bytes of the page stay. |
| Wal.Writer.RestoreUntil | src/pager.c:1560-1731 | Every point in time of a writer's history is restored exactly, and page 0 of the copy holds the LSN of the last commit up to it. |
| CrashRecovery.Transaction.JournalPage | src/pager.c:613-645 | The page is shadowed, its pre-image journaled once, and nobody's view changes. |
| CrashRecovery.Transaction.Commit | src/pager.c:855-975 | Every state of the commit is safe, each crash before the unlink leaves a set of old and new pages with all changed ones journaled, and the pages are the new ones in the end, with the new LSN to be read from page 0; a commit without writes removes the journal only. |
| CrashRecovery.Transaction.Rollback | src/pager.c:1006-1089 | Every state is safe, the pages are the old ones, and the file is cut to the old page count. |
| CrashRecovery.CutsToOld | src/pager.c:1060-1083 | Cutting the file while old images are still pending is safe and leaves the old pages and no others. |
| CrashRecovery.Recover | src/pager.c:361-395 | The loop replays the journal, later records winning. |
| CrashRecovery.SafeBefore | src/pager.c:613-645 | Before the journal is synced, any crash and any chain of interrupted recoveries leaves the old pages. |
| CrashRecovery.SafeDuring | src/pager.c:908-941 | While pages are written, in any subset, the same holds. |
| CrashRecovery.SafeAfter | src/pager.c:941-975 | Once the journal is gone, every crash leaves the new pages. |
| CrashRecovery.InterruptedKeeps | src/pager.c:361-395 | A recovery that crashes anywhere keeps the journal and touches journaled pages only. |
| CrashRecovery.RecoveriesRestore | src/pager.c:361-395 | Any number of interrupted recoveries and a last one bring back the old content. |
| CrashRecovery.FlushCrash | src/pager.c:908-941 | Any crash of the flush phase leaves a state to which the second-crash results apply. |
| CrashRecovery.InterruptedCommit | src/pager.c:361-395 | Interrupted recoveries do not leave that set of states. |
| CrashRecovery.SecondCrashAtomicIff | src/pager.c:361-395 | A crash right after the recovery is harmless if and only if nothing was damaged or at most one page changed. |
| CrashRecovery.SecondCrashMixes | src/pager.c:361-395 | A commit of two pages, a crash and a second crash that leave one page new and one old. |
| Savepoints.EarliestWins | src/pager.c:1122-1177 | Reverse replay leaves the earliest image after the savepoint. |
| Savepoints.AllKeptLog | src/pager.c:613-645 | A journaled write keeps every savepoint's snapshot recoverable. |
| Savepoints.AllKeptCut | src/pager.c:1122-1177 | After a rollback the older snapshots are recoverable from what is left of the journal. |
| Savepoints.Transaction.Create | src/pager.c:1107-1120 | A new savepoint remembers the journal offset and the view, up to the limit. |
| Savepoints.Transaction.JournalPage | src/pager.c:613-645 | With a savepoint active every call appends the current image. |
| Savepoints.Transaction.RollbackTo | src/pager.c:1122-1198 | The view of every page below the saved count, and the count, are those of the newest savepoint of that name; later savepoints go, older ones stay valid; each page of the database file has its earliest image since the savepoint. |
| Savepoints.Transaction.Release | src/pager.c:1200-1218 | The newest savepoint of the name and all later ones go, and nothing else changes. |
| Savepoints.Transaction.RollbackChain | src/pager.c:1107-1218 | Rollbacks to ever older names restore each snapshot in turn. |
| Savepoints.FileEarliest | src/pager.c:1144-1160 | The replay leaves the earliest image of a page in the database file, committed or not. |
| Savepoints.UncommittedReachesFile | src/pager.c:1122-1160 | A page changed before and after a savepoint: ROLLBACK TO writes the first, uncommitted change to the database file. |
| FileLock.StepInv | src/pager.c:301-359 | Every atomic step of any process, page writes under RESERVED and failing lock calls included, keeps the invariant: lock state and bytes held match, one writer at most. |
| FileLock.RunInv | src/pager.c:301-359 | The invariant holds in every state of every interleaving. |
| FileLock.OneReserved | src/pager.c:301-348 | At most one process holds RESERVED or more. |
| FileLock.ExclusiveIsAlone | src/pager.c:301-348 | EXCLUSIVE excludes every other holder. |
| FileLock.ReadsOneCommit | src/pager.c:647-664 | In every run whose page writes under RESERVED write committed content, all pages read under one continuous SHARED hold belong to one commit, also if commits add pages. |
| FileLock.ReadsOneCommitIff | src/pager.c:647-664 | A SHARED hold that starts on committed pages sees them throughout if and only if every write or truncation under RESERVED in between leaves the committed content. |
| FileLock.DirtyRead | src/pager.c:1156-1160 | A run of two processes in which a reader at SHARED sees the image that a RESERVED holder writes, for any image other than the committed one. |
| FileLock.PagerLock | src/pager.c:301-348 | Climbing takes only permitted steps and touches no other process. The call succeeds, and then ends at exactly the larger of the old level and the target, if and only if no other process holds a byte that stands in its way; otherwise it stops right below the first level that one does. |
| Mvcc.OneVersionPerKey | src/executor.c:18-44 | A snapshot sees at most one version of a key. |
| Mvcc.InsertEffect | src/executor.c:803-886 | A new row is visible from its transaction on, and to no earlier snapshot. |
| Mvcc.DeleteEffect | src/executor.c:4134-4211 | The row ends for the writer and later snapshots only. |
| Mvcc.UpdateEffect | src/executor.c:4264-4352 | The writer sees the new row instead of the old one; earlier snapshots see no change. |
| Mvcc.RunOk | src/executor.c:803-886 | Over every run of inserts, updates, deletes, commits and rollbacks the version intervals of a key stay disjoint. |
| Mvcc.SnapshotStable | src/executor.c:18-44 | Over every run the rows that a snapshot up to the last commit sees never change. |
| Mvcc.CommittedRows | src/pager.c:855-975 | After BEGIN, any statements and COMMIT, every snapshot from the new LSN on sees the rows that the statements make of those before, as inserts, deletes and updates of a set of rows. |
| Mvcc.RolledBackRestores | src/pager.c:1006-1089 | BEGIN, any statements and ROLLBACK leave table, LSN and rows as they were. |
| Mvcc.CommitPublishes | src/pager.c:925-960 | From any open transaction, COMMIT shows every snapshot from the new LSN on exactly the rows the writer saw. |
| Mvcc.QuietSees | src/executor.c:18-44 | Over any run of begins, commits and rollbacks without a statement all snapshots from the last LSN on see the same rows. |
| Mvcc.ConflictIff | src/executor.c:803-886 | An insert is refused if and only if the writer sees a row of that key. |
| Mvcc.Store.HasConflict | src/executor.c:803-886 | The loop finds a version of the key that is not ended, if there is one. |
| Mvcc.Store.InsertOne | src/vdbe.c:402-425 | The insert statement is refused exactly on a conflict, and else adds the stamped version. |
| Mvcc.Store.DeleteWhere | src/executor.c:4134-4211 | The writer's rows afterwards are exactly those that did not match. |
| Mvcc.Store.UpdateWhere | src/executor.c:4225-4352 | Exactly the matching rows have the assigned value. |
| Mvcc.Store.CommitTx | src/pager.c:925-960 | The LSN grows by one, and the snapshot at it sees exactly what the writer saw. |
| Mvcc.Store.RollbackTx | src/pager.c:1006-1089 | The table is the one from BEGIN, at the same LSN. |
| Snapshots.Registry.Register | src/pager.c:1767-1781 | The snapshot handed out is the transaction's; outside one it sees exactly the versions that live at the last LSN, the same rows as every later snapshot. It takes one free slot, and none if all are taken. |
| Snapshots.SeesCommitted | src/pager.c:1769-1771 | A snapshot taken outside a transaction sees all that is committed and nothing that a running transaction has stamped. |
| Snapshots.TransactionSnapIff | src/pager.c:1769-1771 | All registrations of one transaction see the same rows of every table, whatever is committed in between, if and only if it did not begin at LSN 0 or nothing was committed since. |
| Snapshots.Registry.Unregister | src/pager.c:1783-1793 | One slot with the snapshot is freed and the buffers below the new minimum go; a snapshot at LSN 0 frees no slot and no buffer. |
| Snapshots.Registry.MinActive | src/pager.c:1795-1809 | The least snapshot in an active slot, or the last LSN if there is none. |
| Snapshots.Registry.Reclaim | src/pager.c:1811-1826 | Exactly the buffers from the minimum on stay, each as often as before. |
| Snapshots.Registry.CommitSwap | src/pager.c:951-969 | The LSN grows by one, each replaced buffer is retired once under the new LSN, and exactly the buffers below the minimum go. |
| Snapshots.Registry.VacuumTable | src/executor.c:5154-5220 | Exactly the versions dead at the minimum go; while every live snapshot is covered, no live or later snapshot loses or gains a row. |
| Snapshots.PurgeSafeIff | src/executor.c:5154-5220 | A purge bound is safe for a snapshot, on all tables of stamped versions, if and only if it is not past it. |
| Snapshots.RecordedRunSafe | src/pager.c:1767-1826 | Over every run whose registrations find a slot, no live snapshot loses a row to vacuum or a buffer to reclamation while it is live. |
| Snapshots.RecordedRunExact | src/pager.c:1767-1793 | Over such a run from the empty registry the slots record exactly the live snapshots. |
| Snapshots.UnrecordedIsLost | src/pager.c:1767-1826 | After a registration without a slot there is a run, the recorded snapshots ending and two commits, in which the snapshot is live and loses both a row and a buffer. |
| Snapshots.RegisterSafeIff | src/pager.c:1767-1826 | When the slots record exactly the live snapshots, a new one keeps its rows, and its buffers, in all later runs if and only if a slot is free. |
| Snapshots.FirstMissIff | src/pager.c:1767-1826 | The same for every registration after any recorded run from the empty registry. |
| Snapshots.PurgeKeepsTable | src/executor.c:5154-5220 | Purging keeps the order and the disjoint intervals. |
| Snapshots.StuckForever | src/vdbe.c:53-58 | A snapshot recorded at LSN 0 stays recorded in every run; from then on vacuum removes nothing and no buffer is freed. |
| HashJoin.HashAgrees | src/executor.c:2936-2949 | Values that `compare_values` finds equal fall into the same bucket. |
| HashJoin.Build | src/executor.c:3071-3099 | The table holds every right row once, in its own bucket; NULL keys included. |
| HashJoin.BucketHasMatches | src/executor.c:3126-3154 | All matches of a left row are in its key's bucket. |
| HashJoin.LonelyAll | src/executor.c:3174-3197 | The buckets together hold the unmatched right rows, each as often as the right table does. |
| HashJoin.HashJoinStep | src/executor.c:3013-3223 | How often each row comes out of INNER, LEFT, RIGHT and FULL: once for each pair of places with equal non-null keys, and for a left or right row without a partner once per occurrence, padded, exactly if the kind asks for it. This is the multiset of the nested loop. |
| HashJoin.NestedAnswers | src/executor.c:3013-3223 | The nested loop, and all that has its multiset, meets this count of pairs and lone rows. |
| HashJoin.NestedPermuted | src/executor.c:3013-3223 | The nested loop does not depend on the order of the stream. |
| HashJoin.ChainedJoin | src/executor.c:2957-3223 | A chain of joins: each stage has exactly the rows, as often, that its pairs and lone rows call for, which is the multiset of the chained nested loops. |
| AccessPath.Scan | src/executor.c:2518-2532 | The rows are those the snapshot sees and the condition selects; in a table of disjoint versions each comes once, in key order. |
| AccessPath.ScanAscends | src/executor.c:2518-2532 | The specified scan yields exactly the visible selected rows with strictly growing keys, so none twice. |
| AccessPath.PkSeek | src/executor.c:2366-2536 | Seeks for `=`, `>` and `>=` on the key return the same rows in the same order as the scan. |
| AccessPath.IndexSeek | src/executor.c:2464-2517 | The rows are those of the scan, each once per index entry of its key in the range; as often as in the scan if and only if no wanted key has two entries there. |
| AccessPath.EntryReached | src/executor.c:2464-2517 | The entry of every wanted row lies in the range the seek walks. |
| AccessPath.SeekOnceIff | src/executor.c:2464-2517 | A seek that adds a row per entry equals the scan, with multiplicities, if and only if no key of a wanted row has two entries in its range. |
| AccessPath.SeekTwice | src/executor.c:4354-4411 | After an insert and an update of the column, both within the range, the scan yields the row once and the index leads to it twice, for all such values. |
| AccessPath.SeekRepeatsNone | src/executor.c:4354-4411 | An index that has been kept up repeats no row whose key has one stored version in the range. |
| AccessPath.UpdateCovers | src/executor.c:4354-4411 | An update that leaves the column unchanged may skip the index. |
| AccessPath.RunCovers | src/executor.c:939-987 | Over every run of statements each stored version keeps an index entry, and no value and key has more entries than stored versions. |
| AccessPath.CreateIndex | src/executor.c:4695-4735 | CREATE INDEX makes exactly one entry for each stored version, sorted. |

## Left out

- Internal-node underflow and whole deletes in the tree (src/btree.c:1266-1336, 1374-1474): the cascade reads past the key count; only leaf underflow with a parent that keeps enough keys is modelled.
- Equal keys in the tree theorems: an inner insertion can put the right half of a split before its sibling.
- Tree pages in bytes: `BTreeInsert` keeps cells and slots of a page as sequences; `SlottedPage` has the cell bytes in place, with a typed slot array.
- Page numbers are unbounded; the missing right child is -1 instead of the largest 32-bit number.
- The tree takes new pages from the end of the file only; reuse through the freelist is in `Overflow`.
- Full ROLLBACK or recovery of a transaction that took a savepoint, and writes after ROLLBACK TO before the descriptor is moved: replay is forward there.
- WAL crash atomicity: the log has no commit marker.
- Version 1 WAL frames, and UNTIL by time stamp.
- Catalog pages that are shadowed without being journaled, and what a crash leaves in bytes 4084-4091 of page 0, which hold the LSN.
- Torn journal records: a crash leaves whole records.
- A process that keeps pages cached across two lock holds, and recovery under RESERVED while readers hold SHARED (its writes are those of the RESERVED writes above).
- Retry sleeps, timeouts and exits: a lock call may fail at any time, and a retry is another call.
- TTL, FLOAT columns, key-changing updates, triggers and cascades.
- NULL entries and partial or expression indexes, the index part of vacuum, and DEFAULT columns.
- Column name resolution of joins, and joins of more than 16 columns.
- The bytecode compiler of SELECT, which is not reachable; the parser, the server, the catalog page layout, and the expression functions: they would only add easy members.
- CrashRecovery.SecondCrashAtomicIff: speaks of a crash after one complete recovery; what a third crash does is not stated.
- BTreeShrink.HandleUnderflow: needs a parent that is the root or keeps at least 17 keys, because the removal below that cascades into inner nodes.
- Snapshots.Registry.VacuumTable: purges the table only; the index entries of purged versions are not modelled.
- AccessPath.SeekRepeatsNone: one direction, because an update that keeps the column adds a version but no entry; on index entries the condition is exact.
- BTreeShrink.LeafMerge: the same parent condition, for the same reason.
- SlottedPage.LeafPage.Split: needs both halves to fit, because the copying loop otherwise writes outside the page; `LeafCapacity.SplitsFitIff` says when they do.
- Savepoints.Transaction.JournalPage: needs the descriptor at the end of the journal, where it is until a ROLLBACK TO truncates the file under it.
- Wal.Restore: without version 1 logs and UNTIL time stamps.
- CrashRecovery.Transaction.Rollback: without the base page cache, whose pages get the same images.
