# A verified model of POST++

POST++ keeps C++ objects in a file that is mapped into memory. This project models the algorithms on
which that rests and proves that they do what they are for:

* **The transaction protocol of a mapped file** (`ShadowPages`, `ShadowRuns`, `ShadowAtomicity`,
  `ShadowLimits`, `ShadowFailures`, `ShadowGuarantees`, `PostFiles`). A state machine with one action for
  each atomic effect: a store, a page fault that logs the page's before-image, locking and unlocking of
  pages, log flushes, each page of a commit's `msync`, log truncation, protection, each record of a
  recovery, closing and opening, background writes by the kernel, loss of power and death of the process.
  The pages that the kernel shows, those on disk, the durable log and the part of the log only the kernel
  holds are kept apart, also while no process has the file open. The class `PostFile` is the code itself;
  its history is a run of the state machine, with background writes let in between its steps.
* **The storage heap and its collector** (`Blocks`, `Tiling`, `HeapModel`, `PageSteps`, `BlockSteps`,
  `Marking`, `Sweeping`, `Collection`, `Storages`). Headers in memory, a free page list with a roving
  pointer, chains of free blocks, the page bitmap that reallocates itself, and mark-and-sweep collection
  that moves pointers as it marks. The class `Storage` changes all this in place. A heap value says what
  a state means: pages are tiled by segments, and a segment under construction is in `limbo`.
* **The T-tree** (`Ttree...`), **the AVL tree on a threaded ring** (`Rings`, `AvlKeys`, `AvlIndex`) and
  what they share (`AvlTrees` on values, `AvlNodes` for nodes on the heap), with range search and
  iterator.
* **The R-tree** (`RtreeSplit`, `RtreePages`, `Rtrees`).
* **The multi-pattern text search** (`TextSearch`).
* **Disk pages of the generalized search tree** and the lossy compression of B-tree keys (`GistPages`,
  `BtreeNodes`, `BtreeSplits`).
* **The ordinal-to-index search of Judy arrays and the lookup of an index** (`JudyArrays`, `JudyByCount`,
  `JudyOrder`, `JudyGet`), each of which says what the other one finds.

Code that works in place is a method proved against a function or predicate on values, whose properties
are lemmas. `Valid()` of a class is the whole invariant of its structure, stated once.

Five claims of the code or its documentation do not hold for all inputs. Each has its exact condition,
over all inputs, and inputs for which it fails:

* Recovery gives the last committed image back. Over all runs this holds if and only if no page is ever
  locked (`ShadowGuarantees.RecoverableIffUnlocked`); that what is recovered is always exactly that image,
  if and only if moreover the file has contents when it is opened
  (`ShadowGuarantees.AtomicIffUnlockedContents`). With a lock limit the process can die, its locks go with
  it, and a changed page reaches the disk before its log record (`ShadowFailures.LockingIsNotSafe`, from
  every file; `ShadowLimits.DeathIsSafeIff`, exactly when). Without contents nothing is protected before
  the first commit (`ShadowFailures.FirstTransactionIsNotAtomic`). What does hold for every file with
  contents and every lock limit is that a run is atomic in which power is not lost between such a death and
  the next commit (`ShadowAtomicity.SparedRunIsAtomic`).
* The documentation says that closing a file commits it. The code removes the log and writes nothing, so
  the theorems above are about runs in which only unchanged files are closed
  (`ShadowLimits.CloseIsSafeIff`, exactly when; `ShadowGuarantees.ClosingIsNotCommitting`).
* The documentation promises every T-tree node with two subtrees a minimum of items. Turns after an insertion
  and turns after a removal can both break that. For every tree and object it is decided from the tree
  before the call (`TtreeOccupancy.InsertOccupancy`, `TtreeOccupancy.RemoveOccupancy`), and for each kind
  there is a tree on which the call breaks it (`TtreeOccupancy.InsertionFails`,
  `TtreeOccupancy.RemovalFails`). What the code keeps in all cases is 1 to 125 items.
* Packing and unpacking a B-tree node gives the node back if and only if its intervals tile
  (`BtreeNodes.LosslessIffTiles`), which neither half of any split inner node does
  (`BtreeNodes.HalvesAreWidened`, `BtreeNodes.SplitIsNotRestored`).

* A text search with several patterns and a mask is to find texts with all patterns of the mask. It is
  defined if and only if the first pattern found completes the mask or none is found, and then right
  (`TextSearch.SearchCtx.Search`); with two patterns in the mask it is defined only for texts that have none
  (`TextSearch.TwoNeededAreNotMet`).

A removal from the R-tree is sure to find what is stored with a rectangle if and only if the bounds of that
rectangle are not swapped (`Rtrees.FoundIffProper`). A T-tree iterator that changes direction goes to the
neighbour of its item if and only if it need not climb (`TtreeIteration.Iterator.TurnBack`).

`dafny verify dfyconfig.toml` checks the project.

Assumptions about the world: while a process lives, a page it has locked is not written back; after an
`fsync`, or a write to a log opened for synchronous writing, the log is durable; writing one page is atomic,
and truncation and removal of the log take effect on disk at once; of log data that was not synchronized a
prefix survives, with the next record perhaps torn; no other thread stores to a page while it is being
logged. The order of keys, the area of a rectangle and the case table are parameters.

## Model

| member | source | states |
|---|---|---|
| `ShadowPages.ReplayRestores` | file.cxx:1414-1417 | Replaying records that hold the committed image restores exactly the pages they cover, whatever is on the others. |
| `ShadowPages.ReplayIs` | file.cxx:1414-1417 | After a replay each page is the image of the last record for it, or as before if there is none. |
| `ShadowPages.PagesJustHold` | stdtp.h:69 | The size of a file in pages: all its bytes lie in them, and some in the last. |
| `ShadowPages.HeaderJustHolds` | file.cxx:1429 | So for the size that the header records. |
| `ShadowPages.InvIsRecoverable` | file.cxx:1409-1434 | In any state with the whole invariant, the durable records replayed over the disk give the last committed image up to its size. |
| `ShadowPages.CacheIsRecoverable` | file.cxx:1409-1434 | As long as what the kernel shows is sound, all its log records replayed over the cached pages give that image, whatever is on disk. |
| `ShadowRuns.WriteBackDisk` | readme.htm:299-313 | A page written back by the kernel is covered by a durable record or unchanged: the one place that needs the lock, or the wait before the first store. |
| `ShadowRuns.WriteKeepsInv` | file.cxx:1248-1293 | A store to a page that is writable keeps what the kernel shows recoverable, and what is on disk. |
| `ShadowRuns.FaultKeepsInv` | file.cxx:1250-1277 | So does logging a page's image at the first fault. |
| `ShadowRuns.LogMoveKeepsInv` | file.cxx:1224-1235 | So does log data becoming durable, by `fsync` or on its own. |
| `ShadowRuns.MsyncKeepsInv` | file.cxx:1648-1653 | So does each page written by a commit. |
| `ShadowRuns.TruncateKeepsInv` | file.cxx:1654-1661 | After the truncation the whole invariant holds, even if the disk was not sound before it, and the memory image is the committed one. |
| `ShadowRuns.ReplayKeepsInv` | file.cxx:1414-1417 | So does each record copied back. |
| `ShadowRuns.CrashKeepsInv` | file.cxx:1409-1434 | So does loss of power, with any prefix of the unsynchronized log and a torn record, whether a process has the file open or not. |
| `ShadowRuns.KillKeepsInv` | file.cxx:1278-1291 | Death of the process keeps all that the kernel shows recoverable; and what is on disk, if no page was locked. |
| `ShadowRuns.CloseKeepsInv` | file.cxx:1723-1777 | A file closed with no change since the last commit is as it was, in the kernel and on disk. |
| `ShadowRuns.StepKeepsCache` | file.cxx:1224-1293 | Every action but a loss of power keeps what the kernel shows recoverable. |
| `ShadowRuns.StepKeepsInv` | file.cxx:1224-1293 | Every action, loss of power included, keeps the whole invariant, but death with locked pages and closing with changes. |
| `ShadowRuns.EveryRunIsRecoverable` | file.cxx:1409-1434 | In every state of every run in which power is not lost between a death with locked pages, or a close with changes, and the next commit: the last committed image can be recovered from the kernel's view, and outside such a stretch from the disk. |
| `ShadowAtomicity.RecoveredIsCommitted` | file.cxx:1429-1434 | In one state: what a recovery would publish is the committed image if something was committed before, and else just as long as the header it would read is empty. |
| `ShadowAtomicity.CommitIsAtomic` | file.cxx:1639-1670 | Seen from disk and durable log, a transaction happens at the instant of the truncation: no other action, death with locked pages included, changes the recovered image, and that one makes it the memory image. |
| `ShadowAtomicity.CommitIsAtomicInCache` | file.cxx:1639-1670 | The same seen through the kernel, whatever is on disk: only truncation and close change what the next session publishes. |
| `ShadowAtomicity.RecoveryCommitsNothing` | file.cxx:1500-1511 | In one state: the truncation that ends a recovery publishes nothing new if the file had been committed before, and else if its header is still empty. |
| `ShadowAtomicity.ReplayedIsCommitted` | file.cxx:1409-1434 | Once all records are replayed, memory starts with the committed image. |
| `ShadowAtomicity.SparedRunIsAtomic` | file.cxx:1639-1685 | In a whole run of a file with contents in which power is not lost while it is exposed, the next session always publishes exactly the committed image. |
| `ShadowLimits.DeathIsSafeIff` | file.cxx:1278-1291 | After a death, whatever the kernel writes and whenever power is lost, the committed image can be recovered, if and only if every page whose only record was not durable was unchanged. |
| `ShadowLimits.CloseIsSafeIff` | file.cxx:1723-1777 | The same after a close, for everything that can be on disk by then, if and only if no page of the contents was changed since the last commit. |
| `ShadowFailures.FirstTransactionIsNotAtomic` | file.cxx:1489-1499 | From every file without contents a run that never truncates the log and still leaves an uncommitted image to be recovered. |
| `ShadowFailures.LockingIsNotSafe` | file.cxx:1278-1291 | From every file of a program that locks pages a run (lock, store, death, page written back, loss of power) after which the committed image cannot be recovered. |
| `ShadowFailures.OpeningCommits` | file.cxx:1500-1511 | What lies on disk beside an empty log is committed by the next opening. |
| `ShadowGuarantees.RecoverableIffUnlocked` | file.cxx:1278-1291 | In all states of all runs from a file the committed image can be recovered from disk and from the kernel's view, if and only if the lock limit is 0. |
| `ShadowGuarantees.AtomicIffUnlockedContents` | file.cxx:1489-1499 | In all states of all runs what a recovery publishes is the committed image, if and only if the file has contents when it is opened and the lock limit is 0. |
| `ShadowFailures.OpeningCommitsFirstTransaction` | file.cxx:1489-1511 | From every file without contents a run in which the next opening commits what was never committed. |
| `ShadowGuarantees.OpeningNeverCommitsIff` | file.cxx:1500-1511 | Over all runs no opening ever publishes anything new, for the same files. |
| `ShadowGuarantees.ClosingIsNotCommitting` | readme.htm:354-356 | From every file with contents a run without any failure that changes a page, closes the file, and leaves on disk what was there before. |
| `PostFiles.PostFile.constructor` | file.cxx:1437-1471 | A file closed cleanly: no log, and the disk holds the committed image. |
| `PostFiles.PostFile.ValidIsRecoverable` | file.cxx:1409-1434 | The last committed image can be recovered if the process dies now, and if power is lost now as long as the object is `Safe`. |
| `PostFiles.PostFile.HistoryIsRecoverable` | file.cxx:1409-1434 | So it could at each point of the object's history, except where it was exposed. |
| `PostFiles.PostFile.FlushLogBuffer` | file.cxx:1224-1246 | Afterwards all of the log is durable and no page is locked; the log as a whole is the same. |
| `PostFiles.PostFile.CreateShadowPage` | file.cxx:1248-1293 | The page is writable, its image is the last record, and nothing else of the log changed, on each of the lock and flush branches. |
| `PostFiles.PostFile.Store` | file.cxx:1248-1314 | A store changes that page only, and adds its old image to the log just if the page was read-only. |
| `PostFiles.PostFile.Resize` | file.cxx:1606-1623 | Success if and only if all bytes lie within the mapping; then the size is the number of pages that just hold them, the last one some of them; else nothing changes. |
| `PostFiles.PostFile.Commit` | file.cxx:1639-1670 | The committed image becomes the memory image cut at the pages that just hold the bytes its header records; each of these pages is on disk and read-only, and no other page loses its protection; the log is empty, no page is locked, and power may be lost from then on, whatever was before. |
| `PostFiles.PostFile.ReplayLog` | file.cxx:1409-1417 | Memory is what the records of the log make of it: on each page the last record wins. |
| `PostFiles.PostFile.RecoverFile` | file.cxx:1409-1434 | Memory is the old one with the log replayed over it and starts with the committed image; the size is that of the pages that just hold the bytes its header records, unless a torn record ends the log, in which case it stays. |
| `PostFiles.PostFile.Rollback` | file.cxx:1672-1685 | Memory is the committed image again, from the log replayed over it, and the log left in place stays the same and valid. |
| `PostFiles.PostFile.OpenWithLog` | file.cxx:1500-1511 | Opening after a failure gives the committed image in the pages that just hold its bytes, on disk and read-only, commits no change and empties the log. |
| `PostFiles.PostFile.OpenFile` | file.cxx:1446-1511 | Opening after a close or any failure maps the committed image, in the pages that just hold the bytes its header records, and read-only; if a log was left the file is safe from then on. |
| `PostFiles.PostFile.CloseFile` | file.cxx:1723-1777 | The memory image, in the pages that just hold its bytes, is the contents from then on; if none of it was changed since the last commit, that is the committed one, and the file is as safe as before. |
| `PostFiles.PostFile.PowerFails` | readme.htm:299-313 | After a loss of power, at any time, memory is what is on disk; an object that was safe is valid and safe. |
| `PostFiles.PostFile.ProcessDies` | file.cxx:1192-1220 | After the process died at any point the object is valid and can be opened again; it is still safe if it was and no page was locked. |
| `Blocks.BlockFits` | storage.cxx:65-77 | The tables agree: a block holds object and header, and its class is the smallest that does. |
| `Blocks.SmallIff` | storage.cxx:628-630 | An object shares a page with others if and only if there is a block that holds it and its header. |
| `Blocks.MapCovers` | storage.cxx:606-612 | The divisor makes the bound close: a map sized for the file also has a bit for every page the map itself adds. |
| `Blocks.MapBytesLeast` | storage.cxx:606-609 | The number of bytes computed for a map is the least with a bit for each page of the file and of the map itself. |
| `Blocks.MapForIs` | storage.cxx:606-612 | The map is then so many times the whole pages that hold it with a header. |
| `Blocks.MapGrows` | storage.cxx:604-612 | A map that has become too small is shorter than its replacement. |
| `Tiling.EveryPageInOneSegment` | dumpmem.cxx:83-130 | Every page after the first lies in exactly one segment. |
| `Tiling.SegmentsApart` | dumpmem.cxx:83-130 | Segments do not overlap. |
| `HeapModel.ObjectsApart` | storage.h:368-382 | Live objects never overlap, small or large. |
| `HeapModel.ObjectNotFree` | dumpmem.cxx:83-130 | No object shares an address with a free segment. |
| `HeapModel.SmallLookup` | storage.cxx:292-302 | Inside a block, no bit is set for the page, and its first header leads to the block. |
| `HeapModel.LargeLookup` | storage.cxx:303-308 | Inside a large object, the bits lead back to its first page and no further. |
| `HeapModel.Lookup` | storage.cxx:281-311 | For every pointer into the payload of an object, bitmap and page headers determine its header. |
| `PageSteps.SplitTailKeeps` | storage.cxx:586-590 | Cutting pages off the end of a free segment keeps the heap invariant and all objects. |
| `PageSteps.UnlinkKeeps` | storage.cxx:591-594 | So does taking a whole free segment out of the list. |
| `PageSteps.ExtendKeeps` | storage.cxx:597-602 | So does growing the file. |
| `PageSteps.ReleasedSound` | storage.cxx:702-719 | So does giving pages back; the list stays sorted and fully coalesced, with joins on both sides. |
| `PageSteps.TouchesBySize` | storage.cxx:708-718 | The comparison of addresses by which the code joins is exactly adjacency of segments. |
| `BlockSteps.SettleLarge` | storage.cxx:642-663 | A large object settles with its bits set: exactly one object more. |
| `BlockSteps.SettleSmall` | storage.cxx:628-641 | A page of blocks settles with its free blocks at the head of their chain. |
| `BlockSteps.PopKeeps` | storage.h:373-378 | Taking the first block of a chain adds exactly one object. |
| `BlockSteps.PushKeeps` | storage.h:299-303 | Giving a block to its chain removes exactly one object. |
| `Storages.Storage.constructor` | storage.cxx:114-215 | A new storage is valid and has no object. |
| `Storages.Storage.FreePage` | storage.cxx:669-720 | Pages go to the sorted, coalesced list, and the roving pointer to the segment that has them then; exactly their bits are cleared and no object changes. |
| `Storages.Storage.FindFit` | storage.cxx:571-584 | Next fit: the first free segment with room after the roving pointer or, if there is none, the first in the list; null only if none has room. The temporary cut of the list is undone. |
| `Storages.Storage.TakePages` | storage.cxx:571-602 | Pages come from the end of the free segment that next fit finds from the roving pointer on, if any has room; if and only if none has, the file grows, by just these pages. |
| `Storages.Storage.TakeFrom` | storage.cxx:585-594 | The pages are the last ones of the segment; the roving pointer stays there, or moves on to the next one, or the first, if nothing is left of it. |
| `Storages.Storage.CreateMap` | storage.cxx:643-656 | The first large object creates a page map with a bit for every page, although that may extend the file again, by the pages of the map, eight times as many as are needed; no other object changes. |
| `Storages.Storage.ReplaceMap` | storage.cxx:603-624 | A map that is too small is replaced by a larger copy, twice as long as is needed, and given back; it again has a bit for every page, no other object changes, and the file grows by the pages of the new map or not at all. |
| `Storages.Storage.AllocPage` | storage.cxx:567-665 | Exactly one object more, with the class and size asked for; at the old end of the file if and only if no free segment fits, else at the end of the one that next fit finds. The file then grows by the pages of the object. The page map changes just if the first one is needed or the old one has too few bits, to one of exactly known size, and then the file also grows by the pages of the new map or, if that went into free space, not. |
| `Storages.Storage.Allocate` | storage.h:368-382 | The same; if the chain of its class is not empty, the object is the first block there and the file does not grow. |
| `Storages.Storage.GetHeader` | storage.cxx:281-311 | From any interior pointer of an object the code finds the object's header. |
| `Storages.Storage.Free` | storage.h:295-307 | Exactly one object less, all others and the file size unchanged. |
| `Marking.MarkObjectLeast` | storage.cxx:356-361 | What a pointer of a marked object leads to is in every set closed under pointers, so marking it marks nothing unreachable. |
| `Marking.PointsToIs` | storage.cxx:281-311 | A pointer counts as one into an object if it is to any of its bytes or to where the first one would be. |
| `Marking.MarkEnd` | storage.cxx:351-387 | When the stack is empty the marked objects are exactly the reachable ones and exactly the slots of roots and marked objects were moved, once. |
| `Sweeping.DroppedNext` | storage.cxx:411-431 | The counter goes up just for objects that were allocated and not marked. |
| `Sweeping.KeepLarge` | storage.cxx:405-415 | A marked large object stays, without its mark. |
| `Sweeping.DropLarge` | storage.cxx:410-414 | An unmarked segment is gone. |
| `Sweeping.KeepPage` | storage.cxx:424-445 | A page with survivors keeps exactly these, its other blocks joining their chain. |
| `Sweeping.DropPage` | storage.cxx:439-441 | A page without survivors is gone as a whole. |
| `Storages.Storage.Mark` | storage.cxx:326-387 | Marks exactly the objects reachable from root, class dictionary and static data through interior pointers, and the page map. |
| `Storages.Storage.Sweep` | storage.cxx:391-455 | Rebuilds page list and chains; what remains is exactly what was marked, and the result counts what has gone. |
| `Storages.Storage.GarbageCollection` | storage.cxx:320-456 | The objects that stay are exactly the reachable ones, with their headers unchanged and unmarked. The pointers in the header of the file are what they were at the call, every other pointer of a survivor that is not null is moved by the shift, none else, and each that is not null then leads to a byte of a survivor. The heap is valid again and the result is the number of objects gone. |
| `Storages.Storage.Collect` | storage.cxx:313-318 | Without a move of the file no pointer changes. |
| `Collection.SurvivorsAreMarked` | storage.cxx:403-448 | What survives the sweep is what was marked, and the page map. |
| `Collection.DroppedAreGone` | storage.cxx:411-455 | The count of the sweep is the difference of the numbers of objects. |
| `Collection.MapSurvives` | storage.cxx:348-350 | The page map survives with a bit for every page. |
| `Collection.RootsAreKept` | storage.cxx:328-347 | Root, class dictionary and static data, which were moved before the call, are afterwards what they were at the call, for any shift; one that stood for null is null. |
| `Collection.OthersAreMoved` | storage.cxx:351-354 | Just the pointers of the objects that stay are moved by the shift, but for null. |
| `Collection.AreLed` | storage.cxx:351-387 | Each pointer that is not null leads to a byte of an object that stays. |
| `Collection.StillClosed` | storage.cxx:351-387 | After a collection every pointer of a root or survivor leads to a survivor. |
| `Collection.NothingLeftToDrop` | storage.cxx:320-456 | All survivors are still reachable: a second collection would drop nothing. |
| `AvlTrees.LeftGrewBalanced` | ttree.cxx:149-175 | After the left subtree grew, the turns restore every balance field, and the tree is higher just if it was even before. |
| `AvlTrees.RightGrewBalanced` | ttree.cxx:191-217 | The same on the right. |
| `AvlTrees.LeftShrankBalanced` | ttree.cxx:253-290 | After the left subtree lost a level, the turns restore every balance field, and the tree is lower exactly when the code says so. |
| `AvlTrees.RightShrankBalanced` | ttree.cxx:293-330 | The same on the right. |
| `AvlTrees.LeftGrewItems` | ttree.cxx:155-173 | No turn changes the order of the items. |
| `AvlTrees.RightShrankItems` | ttree.cxx:302-328 | The same after a removal. |
| `AvlNodes.Node.LeftHigher` | ttree.cxx:149-175 | The pointer surgery on heap nodes is the turn on values; no node is lost or shared. |
| `AvlNodes.Node.RightHigher` | ttree.cxx:191-217 | The same on the right. |
| `AvlNodes.Node.LeftLower` | ttree.cxx:253-290 | The same after a removal on the left, with the result telling whether the tree is lower. |
| `AvlNodes.Node.RightLower` | ttree.cxx:293-330 | The same on the right. |
| `TtreePages.InsertItem` | ttree.cxx:234-236 | The shift makes room at one slot and loses no item. |
| `TtreePages.ReplaceFirst` | ttree.cxx:240-243 | In a full node the first item leaves and the new one enters in its place in the order. |
| `TtreePages.RefillFront` | ttree.cxx:370-373 | One item leaves, and another enters in front. |
| `TtreePages.FindSlot` | ttree.cxx:219-231 | The binary search finds a slot whose neighbours bound the key. |
| `Ttrees.Insert` | ttree.cxx:131-251 | Adds exactly the object; order, 1 to 125 items, balance fields are kept; the result says whether the height grew. The second call after an overflow ends because it must descend. |
| `Ttrees.Remove` | ttree.cxx:332-412 | Removes one occurrence; order, 1 to 125 items and balance are kept, with refills from predecessor or successor; 1 exactly when the height drops, -1 and no change if the object is not there. |
| `Ttrees.GreatestItem` | ttree.cxx:366-373 | The item for a refill is the greatest of the left subtree. |
| `TtreeSearch.Find` | ttree.cxx:60-128 | Finds exactly the matches below a node, in order, up to the limit; skipped subtrees and early stops lose none. |
| `TtreeQueries.TookStop` | ttree.cxx:81-92 | Once the search has stopped, what follows in order would add nothing. |
| `TtreeQueries.WantedIs` | ttree.h:28-29 | The differences of keys that the search computes mean plain comparison: not less than an inclusive first key, greater than an exclusive one, and likewise for the last key. |
| `TtreeQueries.MatchingPicks` | ttree.cxx:65-82 | The matches of a sequence are just its objects within the keys that satisfy the predicate, each as often as it is there and in the same order. |
| `TtreeIndex.Ttree.Add` | ttree.cxx:34-41 | The sorted contents gain exactly the object; the tree has the items per node that `TtreeShapes.AfterInsert` gives, and the documented occupancy is kept if and only if `InsertBreaks` does not hold. |
| `TtreeIndex.Ttree.Take` | ttree.cxx:44-48 | The sorted contents lose exactly one occurrence of a present object; the items per node are those of `TtreeShapes.AfterRemove`, and the documented occupancy is kept if and only if `RemoveBreaks` does not hold. |
| `TtreeIndex.Ttree.Select` | ttree.cxx:21-128 | The result is the sequence of all objects, by plain comparison of keys within the given ones, each inclusive or exclusive, that satisfy the predicate: each as often as the index has it, in its order, cut at the limit; and their number. |
| `TtreeIteration.Iterator.constructor` | iterator.cxx:16-51 | The run starts with all items of the index to visit, in either direction. |
| `TtreeIteration.Iterator.Next` | iterator.cxx:73-119 | A step drops the first of the items that the two stacks encode and yields the next; null at the end. |
| `TtreeIteration.Iterator.Previous` | iterator.cxx:121-167 | The same in reverse. |
| `TtreeIteration.Iterator.TurnBack` | iterator.cxx:121-167 | A step back in a forward run yields the item before, or null, if and only if it need not climb; else it goes to an item ahead, or behind the last item of a node. |
| `TtreeIteration.Iterator.TurnForward` | iterator.cxx:73-119 | A step forward in a reverse run yields the item behind, or null, if and only if it need not climb; else an item still to come, or the end although items are there. |
| `TtreeIteration.TurnedAtStart` | iterator.cxx:121-167 | In every index whose root has a left subtree, a step back at the start of a forward run jumps ahead instead of ending the run. |
| `TtreeStacks.WholeRun` | iterator.cxx:73-119 | What a run has passed, the subtree it is in and what it has still to visit, as the stacks encode them, make up the whole tree. |
| `TtreeIteration.Iterator.RunIsWhole` | iterator.cxx:73-119 | At each step what was passed and what is still to visit make up the whole tree, in order, in either direction. |
| `TtreeIteration.VisitForward` | iterator.cxx:73-119 | A forward run visits exactly the objects in order. |
| `TtreeIteration.VisitBackward` | iterator.cxx:121-167 | A reverse run visits exactly the reverse. |
| `TtreeOccupancy.OccupancyAfterLeft` | ttree.cxx:155-173 | After the left subtree grew, the documented occupancy is kept if and only if no turn is made or the node that comes up has enough items. |
| `TtreeOccupancy.OccupancyAfterRight` | ttree.cxx:197-215 | The same on the right. |
| `TtreeOccupancy.OccupancyAfterLeftShrank` | ttree.cxx:253-290 | After the left subtree lost a level, it is kept if and only if no turn is made or the node that comes up on the right, by a single or a double turn, has enough items. |
| `TtreeOccupancy.OccupancyAfterRightShrank` | ttree.cxx:293-330 | The same on the right. |
| `TtreeOccupancy.InsertOccupancy` | ttree.cxx:131-251 | For every tree and object: an insertion keeps the occupancy unless a full leaf overflows to its inner side below a node that leans to it. |
| `TtreeOccupancy.LowersIs` | ttree.cxx:332-412 | Which removals lower a tree is decided by the balance fields on the way, before anything is changed. |
| `TtreeOccupancy.RemoveOccupancy` | ttree.cxx:332-412 | For every tree and object in it: a removal keeps the occupancy unless a subtree on the way is lowered and a node with too few items stands on the other side to be turned up; refills keep it. |
| `TtreeOccupancy.InsertionFails` | readme.htm:618-621 | A tree and an object whose insertion puts a one-item node on top of two subtrees. |
| `TtreeOccupancy.RemovalFails` | readme.htm:618-621 | The same by a removal. |
| `Rings.L2elem.LinkAfter` | avltree.h:23-26 | The ring has the element after the given one, and is a ring. |
| `Rings.L2elem.LinkBefore` | avltree.h:27-30 | The ring has the element before the given one. |
| `Rings.L2elem.Unlink` | avltree.h:31-34 | The ring is without the element. |
| `AvlIndex.Insert` | avltree.cxx:48-127 | Adds the key to tree and ring at the same place, or finds the key of equal value, perhaps this very key, and changes nothing; the result says whether the height grew. |
| `AvlIndex.RemoveGreatest` | avltree.cxx:208-218 | Takes the greatest key of a subtree out and hands it up, with the node that is no longer in the tree. |
| `AvlIndex.Remove` | avltree.cxx:220-261 | Takes the key itself, not one of equal value, out of tree and ring; 1 exactly when the height drops, -1 and no change if it is not there. |
| `AvlIndex.AvlTree.Add` | avltree.cxx:17-27 | The keys, in tree and ring alike, gain the key at its place, or one of equal value, perhaps this very key, is returned and nothing changes. |
| `AvlIndex.AvlTree.Take` | avltree.cxx:41-44 | The keys lose exactly this one, or it was not there. |
| `AvlIndex.AvlTree.Search` | avltree.cxx:29-39 | The key of equal value, or null if there is none. |
| `RtreeSplit.PickSeeds` | rtree.cxx:188-203 | The seeds are, of all pairs, one that wastes most area when covered together. |
| `RtreeSplit.Choose` | rtree.cxx:235-252 | The branch chosen has the strongest preference of those left, and goes to the group it prefers. |
| `RtreeSplit.Distribute` | rtree.cxx:231-260 | The branches go to the groups one by one, always the one with the strongest preference and to the group it prefers, the rectangles growing with them; a choice is always found, whatever the areas; no group gets more than leaves the other its minimum. |
| `RtreeSplit.SplitPage` | rtree.cxx:180-289 | The old branches and the new one are partitioned, none lost or doubled, into two pages within the minimum and maximum, for any area function: two seeds that waste most area attract the others in the order of their preference until a group is full. |
| `RtreePages.CoverTight` | rtree.cxx:171-178 | The cover of a page is the tightest rectangle around all objects below it. |
| `RtreePages.OverlapIsMeet` | rtree.h:49-60 | Two rectangles overlap, as the code compares bounds, if and only if they meet: stretches with a common point on both axes; a stretch with swapped bounds is met just by one in proper order that has all of it. |
| `RtreePages.ProperMeet` | rtree.h:49-60 | Proper rectangles overlap if and only if they have a common proper rectangle inside. |
| `RtreePages.OutsideBranch` | rtree.cxx:104-107 | Nothing below a branch overlaps a query that its rectangle does not. |
| `Rtrees.PickBranch` | rtree.cxx:302-316 | The branch whose rectangle grows least, the smaller of several. |
| `Rtrees.InsertBranch` | rtree.cxx:297-335 | An entry inserted at any height below a page: all leaves stay at the same depth, covers exact, pages filled, with or without a split, which comes just when a page is full, and nothing is lost. On the way only the branch changes whose rectangle grows least. |
| `Rtrees.RemoveFrom` | rtree.cxx:337-367 | Finds the object if and only if it is reached through branches that overlap the rectangle; then one entry of the object is gone, pages that became too small form a chain at consecutive heights, and page, chain and entry make up what was there. |
| `Rtrees.ProperIsReached` | rtree.cxx:345-349 | What is stored with a proper rectangle is reached: the covers on the way overlap it. |
| `Rtrees.SwappedIsMissed` | rtree.cxx:345-349 | In a tree above one page whose entries all have the same rectangle with swapped bounds, none is reached. |
| `Rtrees.FoundIffProper` | rtree.cxx:345-349 | In every sound tree a removal finds what is stored with a rectangle, if and only if the rectangle is proper. |
| `Rtrees.SearchPage` | rtree.cxx:124-144 | Reports exactly the entries that meet the query, each as often as it is stored, and their number. |
| `Rtrees.RTree.Insert` | rtree.cxx:17-31 | The contents gain exactly the entry; a split root gets a new one above. |
| `Rtrees.RTree.ReinsertChain` | rtree.cxx:39-55 | Re-insertion of orphaned pages at `height - level`, with the root perhaps split on the way, restores all their entries. |
| `Rtrees.RTree.Remove` | rtree.cxx:34-67 | The contents lose exactly the entry, if objects are distinct; equal depth, exact covers, minimum fill and an inner root with two branches hold again. True if and only if the object is reached, which it is for a proper rectangle. |
| `Rtrees.StoredButNotFound` | rtree.cxx:17-67 | A history of insertions with one rectangle with swapped bounds after which a removal does not find what is stored. |
| `Rtrees.RTree.Search` | rtree.cxx:74-77 | After any history of insertions and removals the search reports exactly the entries that meet the query, which for proper rectangles is to share a point, and their number. |
| `TextSearch.SkipsNothing` | textobj.cxx:118-130 | Shifting by the table entry of the last character of the window skips no occurrence of any pattern. |
| `TextSearch.OccursIsStands` | textobj.cxx:133-143 | A pattern occurs as the code compares it if and only if what was given stands there: with the same characters, or if it is not exact with characters of the same upper case. |
| `TextSearch.MakeShifts` | textobj.cxx:68-102 | Each entry of the merged table is small enough for every pattern, exact or ignoring case, and no smaller than some pattern asks for. |
| `TextSearch.SearchCtx.constructor` | textobj.cxx:38-103 | Patterns converted as they are compared, and a sound table. |
| `TextSearch.SearchCtx.SearchNoCase` | textobj.cxx:146-187 | The first start at which any pattern occurs and, of those, the last pattern, with no check of the end as long as the longest fits. |
| `TextSearch.SearchCtx.Search` | textobj.cxx:106-235 | Defined if and only if there is one pattern, or the first match completes the mask, or there is none; then true if and only if some pattern, as it was given, stands in the text after the old position, and if and only if all patterns of the mask do; the position moves to the least such start, else to -1. |
| `TextSearch.TwoNeededAreNotMet` | textobj.h:36-38 | With two patterns in the mask the search is defined just for texts in which no pattern occurs. |
| `TextSearch.FirstUnique` | textobj.cxx:153-165 | There is one first start, and one pattern tried first of those that occur there. |
| `GistPages.NumberKept` | GiST/libGiST/GiSTnode.cpp:180-186 | Numbers in range survive being written as bytes. |
| `GistPages.SizeIsExact` | GiST/libGiST/GiSTnode.cpp:22-35 | The size is exactly where the entries end plus the line table with its last entry. |
| `GistPages.WrittenBetween` | GiST/libGiST/GiSTnode.cpp:199-220 | Entries growing up and the line table growing down never touch what is packed. |
| `BtreeNodes.LosslessIffTiles` | GiST/BTree/BTentry.cpp:33-79 | Decompressing the compressed entries gives them back if and only if their intervals tile from minus to plus infinity, or on a leaf are single keys. |
| `BtreeNodes.HalvesAreWidened` | GiST/BTree/BTentry.cpp:33-79 | Where a tiling inner node is cut, at any place, neither half tiles or is restored: exactly the two bounds at the cut are widened to infinity. |
| `BtreeNodes.BoundsNotStored` | GiST/BTree/BTentry.cpp:33-52 | What is stored of an inner node does not depend on the lower bound of its first entry or on any upper bound. |
| `BtreeNodes.GistNode.OverFullIff` | GiST/libGiST/GiSTnode.cpp:22-35 | A node is over-full if and only if its entries would run into the line table. |
| `BtreeNodes.InsertedIs` | GiST/BTree/BTnode.cpp:15-42 | Around a new entry all others are in place; on a leaf the entry is not changed, and in an inner node only infinite bounds are, to those of the neighbours. |
| `BtreeNodes.GistNode.PickSplit` | GiST/libGiST/GiSTnode.cpp:388-409 | A split leaves the first half of the entries in the node and the others in a copy. |
| `BtreeNodes.SplitIsNotRestored` | GiST/libGiST/GiSTnode.cpp:388-409 | Neither half that a split leaves of a tiling inner node is restored from its page. |
| `BtreeNodes.GistNode.InsertBefore` | GiST/BTree/BTnode.cpp:15-42 | The entry is at its index, the others in order around it, and on a leaf it is unchanged; infinite bounds inside an inner node, and no others, become those of the neighbours. |
| `BtreeNodes.GistNode.DeleteEntry` | GiST/libGiST/GiSTnode.cpp:150-168 | The entry is gone and the others keep their order. |
| `BtreeNodes.GistNode.Coalesce` | GiST/BTree/BTnode.cpp:62-76 | The node has its entries and those of the right neighbour, which meet at the given bound. |
| `BtreeSplits.SplitTilesIff` | GiST/libGiST/GiST.cpp:461-465 | A tiling parent in which two entries replaced one tiles again if and only if they meet each other and, where they are not widened, what the old one met. |
| `BtreeSplits.SplitKeepsTiles` | GiST/libGiST/GiST.cpp:421-465 | So it does after any split of an inner node. |
| `BtreeSplits.MergeRestores` | GiST/BTree/BTnode.cpp:62-76 | Halves of an inner node that come back widened from their pages give the node again when they are merged at the bound their parent has for them. |
| `BtreeSplits.LeafMergeRestores` | GiST/BTree/BTnode.cpp:62-76 | So do the halves of a leaf, where no bound is touched. |
| `BtreeNodes.GistNode.Pack` | GiST/libGiST/GiSTnode.cpp:180-222 | A node that is not over-full is completely on its page. |
| `BtreeNodes.GistNode.ReadEntry` | GiST/libGiST/GiSTnode.cpp:294-326 | An entry is found again from the line table, or by arithmetic if keys have a fixed length. |
| `BtreeNodes.GistNode.Unpack` | GiST/libGiST/GiSTnode.cpp:225-255 | A packed page gives header and all entries back, with bounds rebuilt from the neighbours. |
| `BtreeNodes.PackAndUnpack` | GiST/libGiST/GiSTnode.cpp:180-255 | Packing a node that is not over-full and unpacking the page gives the same node if and only if its intervals tile. |
| `JudyArrays.PopIsCount` | Judy/src/JudyCommon/JudyCount.c:1070-1195 | The population a pointer itself holds is the number of indexes below it, for all forms. |
| `JudyArrays.LinearBelow` | Judy/src/JudyCommon/JudyByCount.c:270-296 | The populations of the first pointers of a linear branch add up to the indexes below a digit. |
| `JudyArrays.BitmapBelow` | Judy/src/JudyCommon/JudyByCount.c:369-403 | The same for the pointers of a part of a bitmap branch, by the bits set below a digit. |
| `JudyArrays.OneExpanse` | Judy/src/JudyCommon/JudyByCount.c:352-450 | Counting up and counting down cannot select different expanses: only one has the ordinal. |
| `JudyByCount.BitmapDigit` | Judy/src/JudyCommon/JudyPrivate.h:842-852 | The digit of the bit with the given offset. |
| `JudyByCount.BitmapExpanse` | Judy/src/JudyCommon/JudyByCount.c:320-454 | Up or down, the branch's child whose expanse has the ordinal, and exactly what lies below it counted, without overflow or underflow. |
| `JudyByCount.UncompressedExpanse` | Judy/src/JudyCommon/JudyByCount.c:471-581 | The same for an uncompressed branch with its null pointers. |
| `JudyByCount.LinearExpanse` | Judy/src/JudyCommon/JudyByCount.c:251-306 | The same for a linear branch. |
| `JudyByCount.LeafSubexpanse` | Judy/src/JudyCommon/JudyByCount.c:703-753 | The part of a bitmap leaf that has the ordinal, counted up or down. |
| `JudyByCount.LeafIndex` | Judy/src/JudyCommon/JudyByCount.c:583-941 | Each form of leaf and immediate pointer completes the index, decoded digits of skipped branches included. |
| `JudyByCount.ByCount` | Judy/src/JudyCommon/JudyByCount.c:97-954 | The index with the given ordinal, of those that `JudyGet.IndexesAreLedTo` says the array has, if and only if it has that many; else nothing is stored. |
| `JudyGet.BitsAreCounted` | Judy/src/JudyCommon/JudyGet.c:298-300 | The number of the pointer for a digit in a bitmap branch is the number of lesser digits whose bits are set. |
| `JudyGet.InBranch` | Judy/src/JudyCommon/JudyGet.c:160-384 | An index is below a branch if and only if it agrees with the decoded digits and is below the child for its next digit. |
| `JudyGet.KeyLeads` | Judy/src/JudyCommon/JudyGet.c:123-757 | The indexes below a pointer, whatever its form, are just those that end there when their own digits are followed down. |
| `JudyGet.LeastIsIndex` | Judy/src/JudyCommon/JudyByCount.c:795-814 | A single immediate index is the first digit of the way and then the field of the pointer. |
| `JudyGet.IndexesAreLedTo` | Judy/src/JudyCommon/JudyGet.c:93-757 | An array has an index if and only if going down from the root by its digits ends at it. |
| `JudyGet.SearchLeaf` | Judy/src/JudyCommon/JudyPrivate.h:536-553 | The binary search of a leaf, in which the greatest word stands for -1: where the digits are, or the complement of where they belong. |
| `JudyGet.Follow` | Judy/src/JudyCommon/JudyGet.c:201-304 | What each form of branch has for a digit. |
| `JudyGet.TestLeaf` | Judy/src/JudyCommon/JudyGet.c:396-735 | Whether a leaf or immediate pointer, of each form, has the index. |
| `JudyGet.Test` | Judy/src/JudyCommon/JudyGet.c:58-760 | The lookup finds an index if and only if the array has it, that is, if and only if some ordinal gives it; without the digits that immediate pointers keep of the way down it might miss one, but never finds one that is not there. |
| `JudyOrder.KeysAscend` | Judy/src/JudyCommon/JudyByCount.c:228-234 | The indexes below a pointer ascend and agree with the digits decoded on the way, for every mix of branches and leaves. |
| `JudyOrder.OrdinalIsRank` | Judy/src/JudyCommon/JudyByCount.c:25-32 | The index with an ordinal has just that many lesser ones in the array, by numeric value. |

## Left out

- TextSearch.SearchCtx.Search: what the code does after it is no longer defined is not modelled. Texts and patterns are bytes whose only case variants are a character and its lower-case form; a mask is the set of its bits.
- PostFiles.PostFile.Store: a store to the header page does not lower the size recorded there, which `storage.cxx:602` only ever adds to, and does not set it past the end of the file.
- PostFiles.PostFile.PowerFails: a file that was not safe may be anything afterwards, so nothing is promised for it but its history.
- PostFiles.PostFile.Resize: the size is in whole pages; growth in larger steps and the shortening of the file on disk are not modelled.
- JudyGet.Test: finds every index of an array whose single immediate indexes keep all their digits at the pointer, as insertion writes them (`Judy/src/JudyCommon/JudyIns.c:199`).
- JudyByCount.ByCount: arrays of less than all 2^64 indexes, in the 64-bit layout, with a result pointer that is not null; the pointer to a JudyL value is not modelled.
- Storages.Storage.GarbageCollection: asks what the code asks of the application: that every pointer that is not null leads into an object and that segments are not empty.
- TtreeIndex.Ttree.Take: the object must be in the index, as the code asserts.
- TtreeIteration.Iterator.Next: for runs in one direction; of a run that changes direction the first step after the change is modelled.
- Rtrees.RTree.Remove: names the removed entry if every object is stored under one rectangle; otherwise some entry of the object is removed.
- BtreeNodes.PackAndUnpack: keys all of the fixed length, if there is one, and numbers that fit their fields, as the code asserts or its types say.
- Pointers of the heap are offsets from the start of the file plus the mapping address; the mark bit of a class number is a field of its own; the recursion of `alloc_page` for a page map is a method of its own, `AllocMap`; `adjust_references` without a collection is not modelled.
- The application's part in the object graph, writing pointers into objects, is the mapping `slots` from segments to pointers.
- A T-tree node's item array is a sequence of 125 slots that the loops change slot by slot; the compare functions are comparison of integer keys; the search predicate is a function.
- R-tree pages are values: updates in place of one page by two names are not captured. The area is any function of a rectangle, so its overflow does not matter; the first pair of seeds and the first branch are taken without a comparison, where the code compares with the least or greatest `int`. The search with a callback visits the same entries as the one with a buffer. `purge` is left out.
- `set_size` of a file is limited by the mapping only; growth of the file in larger steps, the modes without transactions, error codes of system calls and the Windows branches are left out.
- The table of larger pages, opening of a storage, class dictionary, mutexes and constructors of objects are left out.
- The generalized search tree itself, with its splits and re-insertions, and other key types are left out, as are the remaining operations of Judy arrays; pages of a tree node have no parent field, which the code never writes.
- Generated parsers, shells, test programs, hash tables, arrays and C++ adapters would only add easy members.
