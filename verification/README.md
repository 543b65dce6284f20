# Models of a heap allocator and of libfuse, with proofs

This project models, in Dafny 4.11, the parts of the repository that keep state of their own: the
heap allocator of hw3 and, from the copy of libfuse 2.9.3 in hw4, the inode tree with its path
locks, the two node hash tables, POSIX record locks, the interrupt protocol, the multi-threaded
session loop, directory pages, vectored buffer copies, relative symlinks and mount option text.
`dafny verify dfyconfig.toml` takes in the whole project.

How the files go together:

- **Inode tree and path locks** (`PathTree`, `TreeOps`, `PathLocks`, `LockQueue`, `FuseState`,
  `FuseRuns`; the code itself in `Fuse`, `WakeUp` and `PathBuffer`).  The tree is a map from node ids to link,
  counts and lock word.  Each critical section of the library's lock is one event; the theorems of
  `FuseRuns` are about every run of events.  `Fuse` has the loops over parent pointers and the
  recursive deletion as methods that change the maps in place, each proved to compute what the
  events say; `WakeUp` is the pass over the queue, whose elements remember locks by flags; `PathBuffer`
  is the path buffer that grows backwards.
- **Hash tables** (`HashLayout`, `NodeTable`): linear hashing with incremental splits and merges, as
  a class over an array of chains whose ghost view is a map.  One class serves both tables, which
  differ in the hash function only.
- **Record locks** (`RecordLocks`): the list edited in place, against a type for every owner and byte.
- **Interrupts** (`Interrupts`) and **worker pool** (`WorkerPool`): state machines with one step for
  each critical section or blocking call, for any number of threads and in any interleaving, plus
  the list scans and counter updates as methods on a class.  Fields such as `calls`, `destroyed` and
  `freed` are history.
- **Directory pages** (`DirFormat`, `DirHandle`): entries as little-endian bytes, the buffer as an
  array, and a reader that resumes at the offset of the last whole entry.
- **Heap** (`HeapLayout`, `Heap`): the list of blocks as a layout from the first address to the
  break; headers are written into the same memory as payloads, so a misplaced header or memset
  would break a proof.  Addresses count from the first block.
- **Buffer copy** (`BufCopy`), **symlinks** (`SymlinkPaths`, `Subdir`), **options** (`OptionText`,
  `Options`): specification on sequences and, for the code, loops over arrays and positions.
  `CStrings` is text ended by a NUL, `Wrappers` an option type.

Properties that turned out to have exceptions are stated with their exact condition:

- The load bound of the hash tables fails after a failed doubling, which the code never tries again:
  `NodeTable.LoadInRuns`, `NodeTable.FailedGrowthIsFinal`, `NodeTable.LoadBreaksAt`.
- An idle worker is left whenever the pool waits if and only if every thread creation that a worker
  attempts succeeds: `WorkerPool.CountersInRuns`, `WorkerPool.CreationFails`.
- Joined options come back unchanged if and only if the first is not empty (or the only one); for
  fusermount's splitter the last must not be empty either: `OptionText.RoundTripIff`,
  `OptionText.SegmentsIff`.
- A directory reader gets on if and only if its request has room for the next entry:
  `DirFormat.RoomNeeded`.
- A free block of exactly the requested size is passed over: `HeapLayout.ExactFitIsNotReused`.
- The destination cursor of a buffer copy moves by the bytes copied if and only if there are none, or
  the source has bytes left, or its last buffer is empty; otherwise it stays in front of the last
  piece: `BufCopy.Machine.Copy`, `BufCopy.LastPieceShort`, `BufCopy.CursorStaysBehind`.

What the kernel is taken to guarantee, as part of when an event of `FuseState` is enabled: forget
counts are between 1 and the lookups there are; operations on one name in one directory are
serialised; and the start node and the write node of a waiting or running request stay looked up.
That no directory is renamed into itself, onto itself or onto an ancestor of its source is not among
these: `FuseState.LockedRenameReady` derives what a rename needs from the locks it holds.

## Model

| member | source | states |
|---|---|---|
| `FuseRuns.ReachableSafety` | hw4/lib/fuse/lib/fuse.c:914-1095 | In every reachable state: counts are exact, every named node has a live parent, each lock word is exactly its holders (readers R, R with the waiter mark and R > 0, or one writer and no reader), and only the head of the queue waits holding one of its paths. |
| `FuseRuns.RunKeepsInv` | hw4/lib/fuse/lib/fuse.c:935-1379 | Every run of acquire, refused acquire, two-path acquire, release, queue wake-up, lookup, unlink, rename, pin and forget keeps the whole invariant. |
| `FuseRuns.EventKeepsInv` | hw4/lib/fuse/lib/fuse.c:935-1379 | Each single event, in any state that satisfies the invariant, keeps it. |
| `FuseRuns.EventMovesOnlyWriteHeld` | hw4/lib/fuse/lib/fuse.c:1325-1379 | A node that stays in the tree changes its parent or name only in an event of the request that holds it write-locked; no node with any lock on it is freed. |
| `FuseRuns.ChainHeldThroughRun` | hw4/lib/fuse/lib/fuse.c:924-994 | From grant to release, whatever runs in between, the chain a request locked stays exactly the way from its start node to the root, so unlock_path walks the nodes try_get_path locked. |
| `FuseRuns.ReadHeldStays` | hw4/lib/fuse/lib/fuse.c:924-932 | No event moves a node that some running request holds read-locked. |
| `FuseRuns.EventKeepsHolds` | hw4/lib/fuse/lib/fuse.c:1257-1285 | A hold disappears only through the request that owns it. |
| `FuseRuns.RenameEventPaths` | hw4/lib/fuse/lib/fuse.c:1345-1379 | For a rename performed under the locks it holds: exactly the paths under the moved node change, from the old prefix to the new one; under a displaced target they become ENOENT; all others stay. |
| `FuseState.InitialInv` | hw4/lib/fuse/lib/fuse.c:935-1379 | The state with only the root satisfies the invariant, so the run theorems are not vacuous. |
| `FuseState.WriteHeld` | hw4/lib/fuse/lib/fuse.c:962-973 | A write-locked node is read by nobody and lies on no granted chain. |
| `FuseState.WriteHeldOnce` | hw4/lib/fuse/lib/fuse.c:1203-1222 | The two holds of one request never write-lock the same node. |
| `FuseState.LockedRenameReady` | hw4/lib/fuse/lib/fuse.c:1345-1365 | Holding the two write locks of a rename implies what makes it safe: the target directory is not below the moved node and no granted chain is cut. |
| `FuseState.ForgottenKeeps` | hw4/lib/fuse/lib/fuse.c:1299-1322 | Forgetting keeps counts exact and the forest intact, including the cascade it may start, provided the node is not locked when the last lookup goes. |
| `FuseState.NewNodeKeeps` | hw4/lib/fuse/lib/fuse.c:842-879 | A node created by find_node is named, counted and looked up so that every invariant holds. |
| `FuseState.RemovedKeeps` | hw4/lib/fuse/lib/fuse.c:1334-1343 | Removing a name keeps the tree invariants. |
| `FuseState.MovedKeeps` | hw4/lib/fuse/lib/fuse.c:1345-1379 | Renaming, with or without a displaced target and in the hiding variant, keeps the tree invariants. |
| `PathLocks.LockWordMeans` | hw4/lib/fuse/lib/fuse.c:914-1005 | What a lock word says: -1 means one writer and no reader, a positive number is the number of readers, the waiter mark implies a reader, and 0 means nobody. |
| `PathLocks.GrantAddsHold` | hw4/lib/fuse/lib/fuse.c:976-1005 | A granted request adds exactly one hold; every lock word again counts the holders. |
| `PathLocks.ReleaseRemovesHold` | hw4/lib/fuse/lib/fuse.c:914-933 | unlock_path on a hold takes away exactly that hold; the waiter mark goes with the last reader. |
| `PathLocks.RefusedChangesOnlyWaiterMark` | hw4/lib/fuse/lib/fuse.c:962-1014 | A refused request (EAGAIN or ENOENT) leaves every lock word as it was, except that a reader-held write node gets the waiter mark. |
| `PathLocks.UnlockUndoesLock` | hw4/lib/fuse/lib/fuse.c:1007-1009 | Backing out of a half-finished walk restores every word. |
| `PathLocks.WalkMeans` | hw4/lib/fuse/lib/fuse.c:976-994 | The upward walk is granted if and only if it reaches the root past nodes without writer or waiter mark. |
| `PathLocks.WriteNodeOffChain` | hw4/lib/fuse/lib/fuse.c:962-980 | The node a request write-locks is never on the chain it read-locks. |
| `PathLocks.ChainsStayPut` | hw4/lib/fuse/lib/fuse.c:924-994 | Restructuring that touches only nodes nobody reads keeps every granted chain as it was. |
| `PathLocks.CascadeSparesLocked` | hw4/lib/fuse/lib/fuse.c:788-808 | The delete cascade never frees a node with a lock on it. |
| `LockQueue.WakeOneKeeps` | hw4/lib/fuse/lib/fuse.c:1033-1087 | One visit of a waiter either serves it with all its paths locked, refuses it with none, or leaves it waiting, and then only the head may keep one of two paths. |
| `LockQueue.WakeKeeps` | hw4/lib/fuse/lib/fuse.c:1089-1095 | A pass over the queue keeps its order and invariant, moves no node, and loses or invents no hold. |
| `LockQueue.TryHoldKeeps` | hw4/lib/fuse/lib/fuse.c:935-1015 | A try by a waiter keeps lock words and holds in agreement. |
| `LockQueue.DropAllKeeps` | hw4/lib/fuse/lib/fuse.c:1017-1031 | queue_element_unlock gives back exactly what the waiter held. |
| `WakeUp.HeldWords` | hw4/lib/fuse/lib/fuse.c:919-931 | Whenever words and holds agree, unlock_path applied to a hold meets its own assertions: the way from its start node to the root carries read locks, and its write node is write-locked and off that way. |
| `WakeUp.ReleasePath` | hw4/lib/fuse/lib/fuse.c:914-933 | unlock_path with the node id and write node an element remembers changes the words exactly as the release of that hold says. |
| `WakeUp.ElementUnlock` | hw4/lib/fuse/lib/fuse.c:1017-1031 | The locked flags of an element lead to the release of exactly the holds of its waiter, and are cleared. |
| `WakeUp.ElementWakeUp` | hw4/lib/fuse/lib/fuse.c:1033-1087 | With flags and remembered write nodes in place of holds, a visit changes the words as the specified visit does and gives the same verdict; an element that keeps waiting still stands for its waiter. |
| `WakeUp.VisitKeepsMatches` | hw4/lib/fuse/lib/fuse.c:1069-1078 | A visit leaves the flags of every other element true, because only the head of the queue ever keeps a lock. |
| `WakeUp.WakeUpQueued` | hw4/lib/fuse/lib/fuse.c:1089-1095 | The loop over the queue computes the specified pass: the words it leaves, the elements that stay, in order, and the answer (none, granted or ENOENT) of each element. |
| `PathTree.UnrefDeletesExactly` | hw4/lib/fuse/lib/fuse.c:788-808 | unref_node deletes exactly the ancestors that are held by a single reference, up to the first that is not. |
| `PathTree.UnrefRestores` | hw4/lib/fuse/lib/fuse.c:705-808 | Dropping a reference that was one too many gives exact counts and a forest again. |
| `PathTree.UnrefFrame` | hw4/lib/fuse/lib/fuse.c:788-808 | Apart from the deleted nodes the cascade changes one count, where it stops. |
| `PathTree.RemoveLeafCounts` | hw4/lib/fuse/lib/fuse.c:705-731 | Deleting a node takes one reference off its parent and leaves all other counts exact. |
| `PathTree.LineageNoRepeat` | hw4/lib/fuse/lib/fuse.c:976-977 | No node is its own ancestor, so the walks to the root terminate. |
| `TreeOps.RelinkForest` | hw4/lib/fuse/lib/fuse.c:1345-1365 | Giving a node a free name outside its own subtree keeps the forest. |
| `TreeOps.UnlinkKeeps` | hw4/lib/fuse/lib/fuse.c:705-731 | unhash_name keeps the forest and exact counts. |
| `TreeOps.AddLinkKeeps` | hw4/lib/fuse/lib/fuse.c:762-786 | hash_name keeps the forest, unique names and exact counts. |
| `TreeOps.RenameKeeps` | hw4/lib/fuse/lib/fuse.c:1345-1379 | rename_node keeps the forest, unique names and exact counts. |
| `TreeOps.RenamePaths` | hw4/lib/fuse/lib/fuse.c:1345-1379 | A rename moves exactly the paths under the moved node from the old prefix to the new; nodes under the displaced target lose theirs; every other path stays. |
| `TreeOps.UnlinkKnownParent` | hw4/lib/fuse/lib/fuse.c:705-731 | A parent the kernel still knows is not deleted by an unlink, it loses one reference. |
| `PathBuffer.PathTextInjective` | hw4/lib/fuse/lib/fuse.c:881-1003 | Different lists of names (without slashes) never spell the same path. |
| `PathBuffer.PathBuf.NewSize` | hw4/lib/fuse/lib/fuse.c:887-895 | The size the buffer is doubled to is large enough and at most the largest unsigned value. |
| `PathBuffer.PathBuf.AddName` | hw4/lib/fuse/lib/fuse.c:881-912 | Puts "/name" in front of the text at any depth, whether or not the buffer has to grow. |
| `PathBuffer.PathBuf.Finish` | hw4/lib/fuse/lib/fuse.c:996-1003 | The finished path is the text, or "/" for the root. |
| `FuseLibrary.Fuse.TryGetPath` | hw4/lib/fuse/lib/fuse.c:935-1015 | Changes exactly the lock words that the specification of locking says, with its verdict; a granted path is "/" joined with the names of the ancestors (and the last name). |
| `FuseLibrary.Fuse.UnlockPath` | hw4/lib/fuse/lib/fuse.c:914-933 | The loop releases the write lock and one read lock on every node of the chain, and nothing else; its assertions hold. |
| `FuseLibrary.Fuse.LockWalk` | hw4/lib/fuse/lib/fuse.c:976-994 | The upward loop stops exactly at the first unnamed or write-blocked node, having locked and spelled everything before it. |
| `FuseLibrary.Fuse.UnrefNode` | hw4/lib/fuse/lib/fuse.c:788-808 | The recursive deletion terminates, computes the cascade, and takes the dead nodes out of the name table; its assertions on counts and locks hold. |
| `FuseLibrary.Fuse.UnhashName` | hw4/lib/fuse/lib/fuse.c:705-731 | Takes the name away and drops the reference on the parent. |
| `FuseLibrary.Fuse.HashName` | hw4/lib/fuse/lib/fuse.c:762-786 | Gives a name and counts it at the parent. |
| `FuseLibrary.Fuse.LookupNode` | hw4/lib/fuse/lib/fuse.c:821-833 | Finds the child with a name, if there is one. |
| `FuseLibrary.Fuse.RemoveNode` | hw4/lib/fuse/lib/fuse.c:1334-1343 | Unlinks the named child, if there is one. |
| `FuseLibrary.Fuse.RenameNode` | hw4/lib/fuse/lib/fuse.c:1345-1379 | Moves the node, displacing a target, or reports busy when hiding meets an existing name. |
| `FuseLibrary.Fuse.FindNode` | hw4/lib/fuse/lib/fuse.c:842-879 | Returns the named child with one lookup more, creating it when missing. |
| `FuseLibrary.Fuse.IncNlookup` | hw4/lib/fuse/lib/fuse.c:835-840 | The first lookup adds a reference. |
| `FuseLibrary.Fuse.ForgetNode` | hw4/lib/fuse/lib/fuse.c:1315-1322 | Subtracts lookups and starts the cascade when none is left. |
| `NodeTable.Table.Lookup` | hw4/lib/fuse/lib/fuse.c:496-506 | Finds a key if and only if the map the table stands for has it, and then its node. |
| `NodeTable.Table.Insert` | hw4/lib/fuse/lib/fuse.c:649-658 | The table becomes the map with the new entry, whether or not a bucket is split or the table doubled; use, size and split change as the load rules say. |
| `NodeTable.Table.Remove` | hw4/lib/fuse/lib/fuse.c:588-601 | The table becomes the map without the key, whether or not buckets are merged or the table halved; reports whether the key was there. |
| `NodeTable.Table.RemoveNested` | hw4/lib/fuse/lib/fuse.c:705-731 | Unlinking a node whose parents go with it, where every name is unlinked before the count is lowered for the first: the table becomes the map without all of them, and use, size and split go through as many removals one after the other. |
| `NodeTable.Table.Rehash` | hw4/lib/fuse/lib/fuse.c:620-647 | Splitting a bucket (and doubling) changes the layout, not the map. |
| `NodeTable.Table.SplitBucket` | hw4/lib/fuse/lib/fuse.c:628-644 | The loop over the chain being split moves exactly the entries that belong in the upper half. |
| `NodeTable.Table.Remerge` | hw4/lib/fuse/lib/fuse.c:562-586 | Merging up to eight buckets (and halving) changes the layout, not the map. |
| `NodeTable.Table.MergeBucket` | hw4/lib/fuse/lib/fuse.c:572-585 | One round hangs the upper chain behind the lower one, in order, and empties it; reports whether there was anything to hang; no other bucket changes. |
| `NodeTable.Table.Resize` | hw4/lib/fuse/lib/fuse.c:603-618 | Doubling keeps the map; a failed reallocation changes nothing. |
| `NodeTable.Table.Reduce` | hw4/lib/fuse/lib/fuse.c:546-560 | Halving keeps the map, also when the reallocation fails and the old array stays. |
| `NodeTable.UnsplitEmpty` | hw4/lib/fuse/lib/fuse.c:546-658 | Upper buckets that have not been split to are empty. |
| `NodeTable.LoadInRuns` | hw4/lib/fuse/lib/fuse.c:546-658 | In every run use <= size/2 + split if and only if the table still grows (split < size/2) or use <= size; if no reallocation fails it always holds. |
| `NodeTable.FailedGrowthIsFinal` | hw4/lib/fuse/lib/fuse.c:626-627 | After a failed doubling no insertion tries again: size and split stay while use grows without bound. |
| `NodeTable.LoadBreaksAt` | hw4/lib/fuse/lib/fuse.c:620-658 | If every reallocation fails, n insertions stay within the load bound if and only if n <= 8192: 8193 insertions break it. |
| `HashLayout.SplitMoves` | hw4/lib/fuse/lib/fuse.c:485-494 | Splitting a bucket moves only its own entries, and only to its image in the upper half. |
| `HashLayout.DoubledLayout` | hw4/lib/fuse/lib/fuse.c:485-494 | Fully split at one size is the same addressing as not split at all at twice the size. |
| `HashLayout.BucketRange` | hw4/lib/fuse/lib/fuse.c:485-494 | Every bucket address is below size/2 + split. |
| `HashLayout.HashName` | hw4/lib/fuse/lib/fuse.c:660-667 | The loop over the bytes of a name computes the base-31 hash in 64 bits. |
| `NodeTable.NewTables` | hw4/lib/fuse/lib/fuse.c:485-675 | The id table with its multiplicative hash and the name table with its base-31 hash are two instances of the one table, empty and valid. |
| `RecordLocks.Node.LocksInsert` | hw4/lib/fuse/lib/fuse.c:3735-3807 | Afterwards each byte of the owner has the new type inside the range and its old type elsewhere, other owners are untouched, records are again sorted, disjoint and maximal; at most two records are added, none when unlocking everything; ENOLCK changes nothing. |
| `RecordLocks.Node.CutRecord` | hw4/lib/fuse/lib/fuse.c:3770-3790 | The case of a record of another type: what overlaps is cut away and the second preallocated record is taken at most once. |
| `RecordLocks.Node.LocksConflict` | hw4/lib/fuse/lib/fuse.c:3709-3720 | Reports no conflict if and only if no byte of the request is held by another owner with a write lock on either side. |
| `RecordLocks.ConflictMeans` | hw4/lib/fuse/lib/fuse.c:3709-3720 | The test on records is the test on bytes. |
| `RecordLocks.CanonicalUnique` | hw4/lib/fuse/lib/fuse.c:3753-3802 | The record list of an owner is determined by what it means: sorted, disjoint and maximal records are a canonical form. |
| `RecordLocks.RunMeans` | hw4/lib/fuse/lib/fuse.c:3735-3807 | After any run of requests a byte has the type that the last request covering it gave it. |
| `Interrupts.InterruptedIsCalled` | hw4/lib/fuse/lib/fuse_lowlevel.c:1566-1597 | After any interleaving: if the request lock is free, the request interrupted and a callback registered, that very callback has been called since it was registered, and no other one after it, whichever came first. |
| `Interrupts.UnregisteredIsQuiet` | hw4/lib/fuse/lib/fuse_lowlevel.c:2220-2231 | From the call of fuse_req_interrupt_func(req, NULL, NULL) to its release of the request lock, in any interleaving, and then in any run without a new registration: no thread runs a callback of the request and none is called. |
| `Interrupts.QuietStays` | hw4/lib/fuse/lib/fuse_lowlevel.c:2220-2231 | In a quiet state no callback of the request is called in any run, until one is registered again. |
| `Interrupts.CallbacksExclude` | hw4/lib/fuse/lib/fuse_lowlevel.c:1577-1589 | Callbacks of one request never overlap: whoever runs one holds its lock. |
| `Interrupts.DestroyedOnce` | hw4/lib/fuse/lib/fuse_lowlevel.c:126-139 | A request object is destroyed at most once, exactly when it is answered and no interrupt refers to it, and no enabled step of any thread uses it afterwards. |
| `Interrupts.MessageAccounted` | hw4/lib/fuse/lib/fuse_lowlevel.c:1566-1645 | What became of an INTERRUPT message: applied means the request with its unique id was marked, and a request is marked if and only if some message for it has marked it; dropped means another message for the same request was pending; bounced means answered EAGAIN once; its object is destroyed exactly when it is settled. |
| `Interrupts.MessageSorted` | hw4/lib/fuse/lib/fuse_lowlevel.c:1566-1623 | A new INTERRUPT message goes to the request being served that it is for, if there is one; else it is dropped if and only if one for the same request is pending; else it becomes pending. |
| `Interrupts.SettledStays` | hw4/lib/fuse/lib/fuse_lowlevel.c:1566-1645 | A message that was applied, dropped as a duplicate or bounced never has a second fate. |
| `Interrupts.PendingIsFresh` | hw4/lib/fuse/lib/fuse_lowlevel.c:1598-1603 | No two pending interrupts are for one request, and none for a request being served. |
| `Interrupts.ArrivalTakesOne` | hw4/lib/fuse/lib/fuse_lowlevel.c:1625-1645 | A request that arrives takes one pending interrupt off the list: its own, which interrupts it, or else the oldest, which is bounced. |
| `Interrupts.StepKeeps` | hw4/lib/fuse/lib/fuse_lowlevel.c:1566-1645 | Every step of every thread keeps the invariant of the protocol. |
| `Interrupts.Session.CheckInterrupt` | hw4/lib/fuse/lib/fuse_lowlevel.c:1625-1645 | The scan of the pending list and the listing of the request are the arrival step. |
| `Interrupts.Session.FindInterrupted` | hw4/lib/fuse/lib/fuse_lowlevel.c:1566-1603 | The two scans up to the first release of the session lock are the interrupt step. |
| `WorkerPool.CountersInRuns` | hw4/lib/fuse/lib/fuse_loop_mt.c:66-143 | In every run before shutdown numworker is the number of listed workers, numavail the number not serving a non-FORGET request, 0 <= numavail <= 10; and 1 <= numavail in every waiting state of the run if and only if every thread creation that a worker attempts in it succeeds; if the first creation fails, the main thread returns with a failure and never waits. |
| `WorkerPool.TakeIdle` | hw4/lib/fuse/lib/fuse_loop_mt.c:112-118 | A worker that takes a request leaves no idle worker if and only if it was the last one, the request is not FORGET, and creating a thread fails. |
| `WorkerPool.CreationFails` | hw4/lib/fuse/lib/fuse_loop_mt.c:119-123 | A run in which a creation fails: one request leaves no idle worker. |
| `WorkerPool.FreedOnce` | hw4/lib/fuse/lib/fuse_loop_mt.c:126-219 | In every run with its shutdown race a worker record is freed at most once, by its thread or by the joiner, and never used afterwards. |
| `WorkerPool.PoolOutlivesWorkers` | hw4/lib/fuse/lib/fuse_loop_mt.c:221-260 | When the main thread has returned no worker touches the pool, which was on its stack. |
| `WorkerPool.ShutdownTerminates` | hw4/lib/fuse/lib/fuse_loop_mt.c:240-251 | From the setting of the exit flag on, every interleaving has a bounded number of steps. |
| `WorkerPool.ShutdownCompletes` | hw4/lib/fuse/lib/fuse_loop_mt.c:240-260 | The shutdown never gets stuck, even if nothing is received any more: at its end all workers have ended and each record was freed exactly once. |
| `WorkerPool.StepKeeps` | hw4/lib/fuse/lib/fuse_loop_mt.c:66-260 | Every step keeps the invariant of the pool. |
| `WorkerPool.Pool.TakeRequest` | hw4/lib/fuse/lib/fuse_loop_mt.c:94-118 | The critical section before processing, in place. |
| `WorkerPool.Pool.FinishRequest` | hw4/lib/fuse/lib/fuse_loop_mt.c:122-142 | The critical section after processing, in place. |
| `WorkerPool.Pool.CancelWorkers` | hw4/lib/fuse/lib/fuse_loop_mt.c:244-248 | The loop cancels every listed worker, then exit is set. |
| `WorkerPool.Pool.StartWorker` | hw4/lib/fuse/lib/fuse_loop_mt.c:176-208 | Starts and lists a worker and counts it, or changes nothing. |
| `DirFormat.ReadsEverything` | hw4/lib/fuse/lib/fuse.c:3369-3509 | Reading a filled directory from offset 0 and resuming each time from the offset of the last whole entry gives every filled name exactly once and in order, and ends after as many requests as names, for any request sizes that each have room for the next entry. |
| `DirFormat.RoomNeeded` | hw4/lib/fuse/lib/fuse.c:3496-3505 | A request gives the reader something if and only if it has room for the next entry. |
| `DirFormat.ParseCut` | hw4/lib/fuse/lib/fuse.c:3496-3505 | A page cut at any byte is read as exactly the whole entries on it. |
| `DirFormat.DecodeEncode` | hw4/lib/fuse/lib/fuse_lowlevel.c:249-267 | Decoding the bytes of an entry gives it back, whatever follows. |
| `DirFormat.FillersAgree` | hw4/lib/fuse/lib/fuse.c:3419-3442 | Filling everything at once and filling page by page give a reader the same names for the same request. |
| `DirFormat.DirentsAre` | hw4/lib/fuse/lib/fuse.c:3431-3440 | Entry by entry: the names in order, and as offset the position where the next entry begins. |
| `DirHandle.AddDirent` | hw4/lib/fuse/lib/fuse_lowlevel.c:249-267 | Writes exactly the encoding of the entry, padding included, and no other byte of the buffer. |
| `DirHandle.Handle.AddDirentry` | hw4/lib/fuse/lib/fuse_lowlevel.c:269-279 | Returns the size needed; with room in the buffer writes the entry and no other byte, without room (or buffer) nothing. |
| `DirHandle.Handle.ExtendContents` | hw4/lib/fuse/lib/fuse.c:3369-3392 | Doubles the buffer until it is large enough, keeping its contents; a failed reallocation is recorded and leaves the buffer in place. |
| `DirHandle.Handle.FillDir` | hw4/lib/fuse/lib/fuse.c:3394-3442 | Both modes: appends one entry with the right offset, or stops; when it stops, when it drops the filled mark and when it records the error. |
| `DirHandle.Handle.FillAll` | hw4/lib/fuse/lib/fuse.c:3444-3474 | A file system that passes no offsets leaves all its names in the buffer. |
| `DirHandle.Handle.FillPage` | hw4/lib/fuse/lib/fuse.c:3444-3474 | A file system that passes offsets leaves as many entries as fit in the request. |
| `DirHandle.Handle.Reply` | hw4/lib/fuse/lib/fuse.c:3496-3505 | The bytes replied for an offset and a size. |
| `DirHandle.Handle.Readdir` | hw4/lib/fuse/lib/fuse.c:3476-3509 | The file system is asked at offset 0 and whenever the buffer does not hold a whole directory, and not otherwise; what is replied in each case, and when it is an error. |
| `DirHandle.ReadDirectory` | hw4/lib/fuse/lib/fuse.c:3476-3509 | A sequence of readdir calls on one handle, each resuming from the last whole entry: whatever the file system would say at the later calls, the reader gets the names taken down at the first, each once and in order, and all of them if every request has room for its next entry. |
| `DirHandle.ReadOffered` | hw4/lib/fuse/lib/fuse.c:3394-3509 | The same for a file system that passes offsets, no two alike, and is asked at every call. |
| `HeapLayout.LayoutUnique` | hw3/mm_alloc.c:288-347 | The block list is determined by the live allocations and the break: no history of allocating and freeing leaves a trace. |
| `HeapLayout.AllFreed` | hw3/mm_alloc.c:288-347 | With everything freed exactly one block spans the heap. |
| `HeapLayout.AllocateMeans` | hw3/mm_alloc.c:61-119 | Allocating adds one allocation, at least as large as asked for, moves no other, and grows the break if and only if no free block has size >= request + 40. |
| `HeapLayout.ReleaseMeans` | hw3/mm_alloc.c:322-346 | Freeing removes that allocation and no other, keeps the break, and leaves no two free neighbours. |
| `HeapLayout.FreeUndoesAllocate` | hw3/mm_alloc.c:61-347 | Freeing what was just allocated in existing room restores the list. |
| `HeapLayout.UsedDisjoint` | hw3/mm_alloc.c:128-208 | Live allocations never overlap each other or a header, and end at or before the break. |
| `HeapLayout.ExactFitIsNotReused` | hw3/mm_alloc.c:88-102 | If every free block is smaller than the request plus a header, be it of exactly the requested size, none is reused and the heap grows by the request and a header. |
| `HeapLayout.AllocateCoalesced` | hw3/mm_alloc.c:88-102 | Allocating never leaves two free neighbours. |
| `Heap.Allocator.Malloc` | hw3/mm_alloc.c:61-119 | The loop over the list takes the first block that fits; headers tile the heap again; no live payload changes. |
| `Heap.Allocator.SplitBlock` | hw3/mm_alloc.c:128-160 | The header updates and the two memsets of a split leave linked headers and every live payload as it was. |
| `Heap.Allocator.ExtendHeap` | hw3/mm_alloc.c:170-208 | A block more at the end, linked both ways; the break moves by the request and a header. |
| `Heap.Allocator.Fusion` | hw3/mm_alloc.c:209-262 | Absorbs a free next block, relinks its successor, and its memset overwrites nothing live. |
| `Heap.Allocator.Free` | hw3/mm_alloc.c:288-347 | Succeeds if and only if the pointer is a live payload, and then exactly that allocation is gone; otherwise nothing changes. All other payloads stay. |
| `Heap.Allocator.Realloc` | hw3/mm_alloc.c:264-286 | A growing realloc moves the contents as a prefix to a new block and frees the old one; all other payloads stay. |
| `BufCopy.Machine.Copy` | hw4/lib/fuse/lib/buffer.c:278-318 | Exactly the first r bytes left in the source go to the first r places left in the destination, r being the result; a negative result means nothing was copied; memory to memory r is the smaller of what is left; the source cursor moves by r; the destination cursor moves by r if and only if nothing was copied, or r is less than what the source had left, or the last source buffer is empty, and otherwise stands where the last piece begins. |
| `BufCopy.LastPieceShort` | hw4/lib/fuse/lib/buffer.c:262-312 | The last piece of a copy of r > 0 bytes is not empty, so a destination cursor left in front of it has moved by less than r. |
| `BufCopy.CursorStaysBehind` | hw4/lib/fuse/lib/buffer.c:308-310 | One byte into two bytes of room: the byte is copied, 1 is returned, and the destination cursor still stands at 0. |
| `BufCopy.Machine.CopyRounds` | hw4/lib/fuse/lib/buffer.c:286-317 | The loop, which also ends for empty buffers, transfers one piece after the other. |
| `BufCopy.Machine.WriteBuf` | hw4/lib/fuse/lib/buffer.c:39-71 | Whatever short writes and failures occur, the bytes delivered are exactly the prefix of the returned length; an error is returned only if nothing was delivered. |
| `BufCopy.Machine.CopyOne` | hw4/lib/fuse/lib/buffer.c:224-244 | One piece, to memory (overlapping or not) or to a descriptor. |
| `BufCopy.BufVec.Advance` | hw4/lib/fuse/lib/buffer.c:262-276 | The cursor moves by the bytes passed, over to the next buffer when one is used up. |
| `BufCopy.BufVec.Size` | hw4/lib/fuse/lib/buffer.c:18-32 | The total of the buffer sizes; a buffer of size SIZE_MAX makes it SIZE_MAX plus what follows the last such buffer. |
| `BufCopy.TransferredMemory` | hw4/lib/fuse/lib/buffer.c:231-242 | After a transfer to distinct addresses each has its byte and all other memory is untouched. |
| `BufCopy.SourceStays` | hw4/lib/fuse/lib/buffer.c:231-242 | Copying into disjoint destination buffers leaves the source bytes as they were. |
| `SymlinkPaths.LinkMeaningKept` | hw4/lib/fuse/lib/modules/subdir.c:116-151 | Followed component by component from the directory of the link, the transformed target leads to the same place as the original absolute one, if no component of the path is "." or "..". |
| `SymlinkPaths.StripMeans` | hw4/lib/fuse/lib/modules/subdir.c:103-114 | strip_common removes the same whole components from both texts. |
| `SymlinkPaths.StripIsMaximal` | hw4/lib/fuse/lib/modules/subdir.c:103-114 | It removes all that are common, except that two equal texts keep their last component. |
| `SymlinkPaths.CompsDots` | hw4/lib/fuse/lib/modules/subdir.c:149-150 | Each "../" put in front is one component "..". |
| `Subdir.StripCommon` | hw4/lib/fuse/lib/modules/subdir.c:103-114 | The scanning loops terminate at the positions of the specification. |
| `Subdir.CountComponents` | hw4/lib/fuse/lib/modules/subdir.c:91-101 | Counts the components. |
| `Subdir.TransformSymlink` | hw4/lib/fuse/lib/modules/subdir.c:116-151 | The in-place rewrite stays inside the buffer, leaves a terminated text, and that text is the specified one. |
| `OptionText.RoundTripIff` | hw4/lib/fuse/lib/fuse_opt.c:117-332 | Joining options with escaping and decoding gives the same list if and only if the first is not empty or is the only one. |
| `OptionText.NonEmptyRoundTrip` | hw4/lib/fuse/lib/fuse_opt.c:117-332 | For non-empty options the round trip is exact. |
| `OptionText.DecodeJoin` | hw4/lib/fuse/lib/fuse_opt.c:294-332 | In general decoding gives the options without leading empty ones. |
| `OptionText.SegmentsIff` | hw4/lib/fuse/util/fusermount.c:737-806 | fusermount's splitter finds exactly the escaped options if and only if neither the first nor the last is empty. |
| `OptionText.SegmentsOfJoin` | hw4/lib/fuse/util/fusermount.c:737-806 | In general it finds them without leading empty ones and without an empty last one. |
| `OptionText.UnescapeEscape` | hw4/lib/fuse/util/fusermount.c:705-709 | Unescaping a value gives it back. |
| `OptionText.ValueRecovered` | hw4/lib/fuse/util/fusermount.c:687-712 | For an option name=value the segment begins with the name and get_string_opt gives the value. |
| `Options.AddOptCommon` | hw4/lib/fuse/lib/fuse_opt.c:117-139 | Appends the option, escaped or not, with a comma only after text that is not empty. |
| `Options.ProcessGroup` | hw4/lib/fuse/lib/fuse_opt.c:294-332 | The in-place decoder hands over exactly the decoded options, each up to its first NUL; its write position never passes its read position. |
| `Options.SplitOptions` | hw4/lib/fuse/util/fusermount.c:737-806 | The loop of do_mount goes through exactly the segments of the specification. |
| `Options.GetStringOpt` | hw4/lib/fuse/util/fusermount.c:687-712 | Fills a fresh, terminated buffer with the unescaped value. |
| `Options.ReadBack` | hw4/lib/fuse/lib/fuse_opt.c:117-346 | Adding options without NULs one by one and parsing a copy of the text gives them back without the leading empty ones: the same list if and only if the first is not empty or is the only one. |
| `Options.RecoverValue` | hw4/lib/fuse/util/fusermount.c:687-806 | From the joined text of options whose first and last are not empty, the splitter and get_string_opt recover the value of an option name=value. |

## Left out

- The remember/noforget mode of fuse.c with its LRU list and pruning: only `conf.remember == 0` is modelled.
- Deadlock freedom of two-path locking, which the code itself leaves open (hw4/lib/fuse/lib/fuse.c:1210).
- LockQueue.WakeKeeps: completing an element and dequeuing it are one step, so an element that is done but not yet dequeued is never visited and never counts as the head.
- WakeUp.WakeUpQueued: the queue is a sequence of element values, not a chain of records on the stacks of the waiting threads; the condition variables that tell a thread are left out, so a forget's element is visited without effect, and the spelled paths are not kept in the elements.
- Failing malloc and strdup, except the table reallocations, the records of `LocksInsert`, the directory buffer and thread creation, where failure is modelled; in particular ENOMEM of try_get_path.
- FuseLibrary.Fuse.FindNode: the id that next_id chooses is a parameter, required to be unused; `generation` and its wrap-around are not modelled.
- FuseLibrary.Fuse.TryGetPath: paths whose text does not fit 32 bits are excluded, as the buffer size is an unsigned there.
- FuseRuns.ReachableSafety: fewer than 2^31 - 1 holds are alive at a time, so that the readers of a node plus the waiter mark stay negative in 32 bits.
- NodeTable.Table.Insert: the duplicate key that the callers never pass is excluded; table sizes are unbounded integers.
- RecordLocks.Node.LocksInsert: the process id of merged records is not part of what is stated.
- RecordLocks.RunMeans: starts from the empty list and counts successful insertions only.
- Interrupts.InterruptedIsCalled: one thread serves and registers on a request; the callback itself is opaque and assumed to return.
- Interrupts.QuietStays: a request that is answered without unregistering may still see a callback that was already picked up; nothing is said about that case.
- WorkerPool.CountersInRuns: receiving nothing is assumed to mean that the session has exited, as the channel's receive function does.
- Signals, semaphores, thread stack sizes and attributes of the session loop.
- DirHandle.Handle.FillDir: which inode number goes into an entry (use_ino, readdir_ino) is a parameter, and lengths stay below 2^32; mixing fillers with and without offsets in one call is modelled but has no theorem.
- DirHandle.Handle.FillPage: reallocation succeeds.
- DirFormat.DecodeEncode: bytes are little-endian.
- DirHandle.ReadDirectory: one reader at a time, as the lock of the handle enforces; what a failing file system has handed over before it fails is dropped with it.
- Heap.Allocator.Malloc: sbrk succeeds and is contiguous, sizes do not overflow, and nothing is claimed about memory being zero, which the branch for a whole block does not ensure.
- Heap.Allocator.Realloc: only to a size that is at least that of the old block; the original copies the old size in any case.
- Descriptors as the source of a copy, the descriptor-to-descriptor loop and splice of buffer.c.
- BufCopy.BufVec.Size: sums that do not fit a size_t, as after a buffer of size SIZE_MAX, do not wrap around.
- BufCopy.Machine.Copy: the memory buffers of source and destination do not overlap, as the function expects; `BufCopy.Machine.CopyOne` also covers overlap.
- SymlinkPaths.LinkMeaningKept: resolution is by names, without following further links on the way.
- Options.ProcessGroup: the callee that takes each option is assumed to accept it.
- The meaning of the single mount options in do_mount, mount flags and privileges.
- mount.c, mount_bsd.c, mount_util.c, helper.c, fuse_signals.c, fuse_session.c, the iconv module, ulockmgr and the fuse_fs_* wrappers: system calls and pass-through.
- hw0, hw1, hw2, hw4/kvfs.c and the FUSE examples: process, socket and file plumbing.
