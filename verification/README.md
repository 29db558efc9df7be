# Verified models of WCDB's concurrency, cursor-window and base components

A Dafny model of the parts of WCDB where state, layout or arithmetic is hardest, and proofs of what
they promise. Each component is a reference machine on values, whose properties are proved over every
run, and, where the source updates objects in place, a class with the source's fields whose methods are
proved to be the steps of that machine. `dafny verify dfyconfig.toml` checks everything.

| files | component |
|---|---|
| Common | the option type and the bounds of machine integers |
| LockProtocol, SharedLock | the re-entrant reader-writer lock: all interleavings of calls, waits and wake-ups |
| WindowMemory, WindowTable, WindowLayout, CursorWindow | the byte buffer of a cursor window against a table of rows |
| WindowFill | filling a window from a result set around a required row |
| ChunkProtocol, ChunkedCursorWindow | the map of chunks with its caches, reference counts and evictions |
| Varint, Serialization | the variable-length integers of section 1.6 of the SQLite Database File Format, and the streams built on them |
| Notification | the commit-time merge of row-change notifications, their counts and their emission |
| Unicode | UTF-8 and UTF-16 conversion (RFC 3629, RFC 2781) |
| RecycleProtocol, Recyclable | shared reference counting and the high-water accounting built on it |
| LruOrder, LRUCache | the least-recently-used cache |

How things are modelled:

- Lock: each call up to its wait or return is one atomic step under the mutex, as is each wake-up. A
  condition variable is the set of threads asleep on it; a thread may wake up for no reason at any time.
  Counters are unbounded integers.
- Cursor window: little-endian bytes; a double is its 64-bit pattern. The runs are those in
  which no offset sum reaches 2^32 (`ColumnsFit`, `OpFits`); `AllocTestExact` says what the allocator's
  test does beyond. A window is at least
  large enough for its header and first chunk, as every window the source creates is.
- Window filling: SQLite is a finite result and a function that says, call by call, whether it is ready,
  busy or failing. Busy answers are arbitrary; the retry counter bounds them.
- Chunked window: the window of a chunk is its number of rows, and whether it has room for one more is an
  argument of each call. Allocation of chunk memory succeeds.
- Serialization: whether an allocation succeeds is an arbitrary function of its number. The sums the reader
  forms of 64-bit sizes wrap; the writer's buffer sizes are unbounded numbers.
- Unicode: exact machine widths. Where text ends inside a sequence, the length function reads past the end
  before it returns -1; the model does not read there, since the answer cannot depend on it.
- Reference counting: one operation at a time; a callback does not itself touch the holders. Assigning a
  value to itself by move leaves the value as it was. Counts and levels are unbounded integers.
- LRU cache: an iterator is the identity of a list node. `shouldPurge` is an argument of `put`.

Where code and expectation part: `removeChunk` and the row limit of the write cache. A row limit is not
raised when the chunk behind the write chunk is removed, so a later append can evict the write chunk
without need (`ChunkProtocol.StaleLimitLosesRows`); `ChunkProtocol.NewRowExact` says exactly which rows
are lost and when, and `ChunkProtocol.NeedlessEvictionExact` when nothing was in the way; only such a
removal leads there (`ChunkProtocol.RemovalLimit`, `ChunkProtocol.NoNeedlessEviction`). A sized view
handed out by the reader lies inside the data exactly when the sum of its parts does not wrap
(`SerializationObject.ViewInsideExactly`), and it can wrap (`SerializationObject.WrappedView`). The
predicted UTF-8 length is exact when every high surrogate has its low one, and can fall short otherwise
(`Unicode.PredictionFallsShort`); `Unicode.DriftExact` says by how much. The 32-bit test of the cursor
window's allocator is right exactly when its sum does not wrap into the window
(`CursorWindowObject.AllocTestExact`, `CursorWindowObject.AllocTestWraps`). The commit hook counts the first
row of a table twice and the last not at all, and the emission does not skip cleared entries; for which
transactions it works all the same is `Notification.EmissionExact`. A sized item whose length does not fit a
signed offset moves the cursor back (`SerializationObject.GoesBackExactly`, `SerializationObject.GoesBack`).

## Model

| member | source | states |
|---|---|---|
| `LockProtocol.StepKeepsInv` | src/common/base/Lock.cpp:64-158 | Every step of every thread, on the platforms that broadcast and on those that notify one thread, keeps the invariant: counters agree with the holds, the queues hold exactly the waiting threads, a waiting thread holds nothing, a writer excludes all others, and no waiter that could go is asleep. |
| `LockProtocol.RunKeepsInv` | src/common/base/Lock.cpp:64-158 | The invariant holds after every interleaving of calls and wake-ups, spurious ones included. |
| `LockProtocol.ReachableInv` | src/common/base/Lock.cpp:64-158 | Every state reachable from the fresh lock has the invariant; in particular the reader count is the sum of the threads' own counts and the writer count is positive exactly when an owner is recorded. |
| `LockProtocol.MutualExclusion` | src/common/base/Lock.cpp:64-158 | While a thread owns the write lock no other thread holds read or write, every shared hold is its own, and the writer count is positive; re-entrant holds included. |
| `LockProtocol.AssertionsAlwaysHold` | src/common/base/Lock.cpp:64-158 | Every condition the source asserts on its way through a call is true, whatever the schedule. |
| `LockProtocol.SomeoneCanMove` | src/common/base/Lock.cpp:64-158 | No lost wake-up: while some thread waits, either a thread outside every wait holds the lock, or a woken thread gets it with its next step. |
| `LockProtocol.CanAlwaysDrain` | src/common/base/Lock.cpp:64-158 | No deadlock: from every reachable state a schedule of exactly the outstanding grants and releases leads to the idle lock. |
| `LockProtocol.ReadersAllAwake` | src/common/base/Lock.cpp:64-158 | With no writer owning or queueing, every waiting reader gets in at its next step. |
| `LockProtocol.WritersServedInOrder` | src/common/base/Lock.cpp:109-129 | Over any run the grants followed by the queue equal the queue before followed by the arrivals: the write lock is granted first in, first out. |
| `LockProtocol.GrantsFollowArrivals` | src/common/base/Lock.cpp:109-129 | From the fresh lock, the order of grants is a prefix of the order of arrivals. |
| `LockProtocol.NoOvertakingStep` | src/common/base/Lock.cpp:67-76 | While a writer is queued, no step gives a shared lock to a thread that holds neither kind. |
| `LockProtocol.NoOvertaking` | src/common/base/Lock.cpp:67-76 | The same over whole runs: whoever holds a shared lock while the writer is still queued held the lock before, or was a writer served ahead of it. |
| `LockProtocol.LockSharedGives` | src/common/base/Lock.cpp:64-85 | In every state with the invariant, lockShared by a thread outside a wait gives it one more shared lock or makes it wait, and it waits exactly when another thread owns the write lock, or nobody does, a writer is queued and the caller holds nothing. |
| `LockProtocol.LockGives` | src/common/base/Lock.cpp:109-129 | lock by a reader changes nothing; otherwise it gives one more write lock, re-entrant calls counted, or makes the caller wait, exactly when it is not the owner and the lock is held or queued for. |
| `LockProtocol.UnlockSharedTakes` | src/common/base/Lock.cpp:87-107 | unlockShared takes back exactly one shared lock, none from a thread that has none. |
| `LockProtocol.UnlockTakes` | src/common/base/Lock.cpp:136-158 | unlock takes back exactly one write lock of the owner, and nothing from any other thread or from an owner that reads. |
| `LockProtocol.WakingGives` | src/common/base/Lock.cpp:73-77 | A woken reader leaves with the lock exactly when nobody owns or waits for the write lock; a woken writer exactly when it heads the queue and nobody holds anything (lines 118-122). |
| `LockProtocol.OthersUntouched` | src/common/base/Lock.cpp:64-158 | No step of a thread changes what another thread holds, its level or whether it waits. |
| `LockProtocol.CallsBalance` | src/common/base/Lock.cpp:64-158 | Over every run: a thread's shared locks, plus one if it waits for one, are its lockShared calls less its effective unlockShared calls; the same for the write lock of its owner, re-entrant calls included. |
| `SharedLockObject.SharedLock.constructor` | src/common/base/Lock.cpp:53-56 | The fresh lock. |
| `SharedLockObject.SharedLock.LockShared` | src/common/base/Lock.cpp:64-85 | Entering a shared lock is the protocol step, so by `LockProtocol.LockSharedGives` the caller has one more shared lock or is asleep and counted as pending. |
| `SharedLockObject.SharedLock.WakeReader` | src/common/base/Lock.cpp:73-77 | Waking inside the shared wait is the protocol step: back to sleep or out of the loop with the lock. |
| `SharedLockObject.SharedLock.UnlockShared` | src/common/base/Lock.cpp:87-107 | Giving up a shared lock is the protocol step, with the writer or the readers it has to wake. |
| `SharedLockObject.SharedLock.NotifyPendingWriters` | src/common/base/Lock.cpp:97-106 | The wake-up of the writer queue: its head on one platform, all of it on the other. |
| `SharedLockObject.SharedLock.LockExclusive` | src/common/base/Lock.cpp:109-129 | Entering a write lock is the protocol step, so `LockProtocol.LockGives` says what the caller has afterwards. |
| `SharedLockObject.SharedLock.WakeWriter` | src/common/base/Lock.cpp:117-123 | Waking inside the writer wait is the protocol step. |
| `SharedLockObject.SharedLock.Unlock` | src/common/base/Lock.cpp:136-158 | Giving up a write lock is the protocol step. |
| `SharedLockObject.SharedLock.GetLevel` | src/common/base/Lock.cpp:160-169 | The level reported, and what it implies for every other thread: at level Write nobody else holds anything, at level Read nobody else writes. |
| `WindowMemory.RoundTrip32` | deprecated/android/jni/CursorWindow.h:64-82 | A 32-bit number stored as four little-endian bytes reads back. |
| `WindowMemory.RoundTrip64` | deprecated/android/jni/CursorWindow.h:69-82 | A 64-bit pattern stored as eight little-endian bytes reads back. |
| `WindowTable.ApplyKeeps` | deprecated/android/jni/CursorWindow.cpp:68-134 | A failed operation changes no field, and no operation but clear moves the slot or the directory of a row that stays. |
| `WindowTable.ColumnsTaken` | deprecated/android/jni/CursorWindow.cpp:81-90 | The number of columns is taken exactly when the window has neither columns nor rows or has that number already, so a window just cleared is never refused; a refusal changes nothing. |
| `WindowTable.AllocRowExact` | deprecated/android/jni/CursorWindow.cpp:92-126 | A row is allocated exactly when its field directory fits behind the free offset, or behind one more slot chunk if every slot of the chain is taken; it then takes those bytes, and otherwise the rows stay as they are. |
| `WindowTable.AllocThenFree` | deprecated/android/jni/CursorWindow.cpp:128-134 | Taking back the row just allocated leaves the rows there were, and gives no space back. |
| `WindowTable.PutExact` | deprecated/android/jni/CursorWindow.cpp:236-293 | A value is stored exactly when its row and column exist and its bytes fit; a missing row or column is a bad value whatever the space, and only text and blobs can run out of memory. |
| `WindowTable.ClearedWindow` | deprecated/android/jni/CursorWindow.cpp:68-79 | Whatever was done before, a cleared window has no row, no column, and all its space but the header's and the first chunk's. |
| `WindowTable.RowsThatFit` | deprecated/android/jni/CursorWindow.cpp:92-203 | A window with c columns takes n rows exactly when the header, n directories and ceil(n / 1023) slot chunks fit, over as many chunks as that takes. |
| `WindowTable.LastPutWins` | deprecated/android/jni/CursorWindow.cpp:68-134 | Over every run of the table machine, whatever was rolled back, refused or cleared, each field holds what the log of the run says was last put there. |
| `WindowLayout.LiveRowsApart` | deprecated/android/jni/CursorWindow.cpp:92-203 | In every window image the slots and directories of live rows are pairwise disjoint, clear of the header and 4-byte aligned. |
| `WindowLayout.LiveBuffersApart` | deprecated/android/jni/CursorWindow.cpp:236-256 | In every window image the buffer of a live string or blob lies in the allocated part, apart from every slot, every directory and every other live field's buffer. |
| `WindowLayout.SlotsApart` | deprecated/android/jni/CursorWindow.cpp:159-203 | Distinct live rows have disjoint slots, across any number of 1023-row chunks. |
| `WindowLayout.ReadsBack` | deprecated/android/jni/CursorWindow.h:153-180 | What the accessors make of a field slot is the value the slot holds, for every type. |
| `WindowLayout.FieldReads` | deprecated/android/jni/CursorWindow.cpp:205-217 | Reading through row slot and directory gives the field of the table. |
| `WindowLayout.ClearImage` | deprecated/android/jni/CursorWindow.cpp:68-79 | The bytes written by clear represent the empty table, whatever the buffer held before. |
| `WindowLayout.NewChunkImage` | deprecated/android/jni/CursorWindow.cpp:178-203 | A freshly linked chunk leaves every row and field of the table as it was. |
| `WindowLayout.ReuseChunkImage` | deprecated/android/jni/CursorWindow.cpp:178-203 | Reusing a chunk that earlier rows left behind, and cutting the chain there, leaves the table as it was. |
| `WindowLayout.AllocRowImage` | deprecated/android/jni/CursorWindow.cpp:92-126 | Row count, free offset, zeroed directory and slot together represent the table with one more row of nulls. |
| `WindowLayout.BackOutImage` | deprecated/android/jni/CursorWindow.cpp:105-113 | Taking the row count back after a failed directory allocation represents the table from before. |
| `WindowLayout.PutImage` | deprecated/android/jni/CursorWindow.cpp:236-293 | Rewriting one field slot changes that field of the table and no other. |
| `WindowLayout.BufferImage` | deprecated/android/jni/CursorWindow.cpp:236-256 | Bytes copied into fresh space disturb no live part. |
| `WindowLayout.DropRowImage` | deprecated/android/jni/CursorWindow.cpp:128-134 | One less in the row count represents the table without its last row. |
| `WindowLayout.SetColumnsImage` | deprecated/android/jni/CursorWindow.cpp:81-90 | The column count in the header represents the table with that many columns. |
| `CursorWindowObject.CursorWindow.constructor` | deprecated/android/jni/CursorWindow.cpp:34-66 | A new window is the empty table. |
| `CursorWindowObject.CursorWindow.Clear` | deprecated/android/jni/CursorWindow.cpp:68-79 | The byte buffer represents the empty table. |
| `CursorWindowObject.CursorWindow.SetNumColumns` | deprecated/android/jni/CursorWindow.cpp:81-90 | Buffer and status are those of the table operation; changing the columns of a window that has some other number is refused. |
| `CursorWindowObject.CursorWindow.AllocRow` | deprecated/android/jni/CursorWindow.cpp:92-126 | Buffer and status are those of the table operation, so it succeeds exactly when the bytes fit (`WindowTable.AllocRowExact`); the slot returned is that of the new row, and a failure leaves every row as it was. |
| `CursorWindowObject.CursorWindow.FreeLastRow` | deprecated/android/jni/CursorWindow.cpp:128-134 | The last row is dropped, and nothing happens in an empty window. |
| `CursorWindowObject.CursorWindow.Alloc` | deprecated/android/jni/CursorWindow.cpp:136-157 | The bump allocator with its truncation to 32 bits: the aligned offset and the moved free offset when the truncated sum lies in the window, 0 and no change when it does not. |
| `CursorWindowObject.CursorWindow.Reserve` | deprecated/android/jni/CursorWindow.cpp:136-157 | Where no sum reaches 2^32: granted exactly when the space is there. |
| `CursorWindowObject.AllocTestExact` | deprecated/android/jni/CursorWindow.cpp:146-148 | The truncated test answers rightly exactly when the sum stays below 2^32 or, truncated, still lies past the end. |
| `CursorWindowObject.AllocTestWraps` | deprecated/android/jni/CursorWindow.cpp:146-148 | An allocation of 2^32 bytes in any window, which the truncated test grants. |
| `CursorWindowObject.CursorWindow.Walk` | deprecated/android/jni/CursorWindow.cpp:159-203 | The chain walk ends at the chunk and position of the row. |
| `CursorWindowObject.CursorWindow.GetRowSlot` | deprecated/android/jni/CursorWindow.cpp:159-176 | The walk returns exactly the slot the row was given. |
| `CursorWindowObject.CursorWindow.NextChunkFor` | deprecated/android/jni/CursorWindow.cpp:178-203 | The next chunk is reused or allocated as the table machine grows its chain, so it is there whenever it fits (`WindowTable.AllocRowExact`). |
| `CursorWindowObject.CursorWindow.AllocRowSlot` | deprecated/android/jni/CursorWindow.cpp:178-203 | A slot for one more row, in agreement with the chain of the table machine. |
| `CursorWindowObject.CursorWindow.GetFieldSlot` | deprecated/android/jni/CursorWindow.cpp:205-217 | The slot of a field exists exactly for live rows and columns, at its place in the directory. |
| `CursorWindowObject.CursorWindow.PutBlobOrString` | deprecated/android/jni/CursorWindow.cpp:236-256 | Buffer and status are those of putting a string or blob in the table; without space nothing changes. |
| `CursorWindowObject.CursorWindow.PutLong` | deprecated/android/jni/CursorWindow.cpp:258-268 | Buffer and status are those of putting an integer. |
| `CursorWindowObject.CursorWindow.PutDouble` | deprecated/android/jni/CursorWindow.cpp:270-280 | Buffer and status are those of putting a floating-point pattern. |
| `CursorWindowObject.CursorWindow.PutNull` | deprecated/android/jni/CursorWindow.cpp:282-293 | Buffer and status are those of putting null. |
| `CursorWindowObject.CursorWindow.ReadField` | deprecated/android/jni/CursorWindow.h:153-180 | The value that the type word and the data of a field slot stand for. |
| `CursorWindowObject.CursorWindow.GetValue` | deprecated/android/jni/CursorWindow.h:148-180 | A read by row and column finds exactly the live fields and returns their values. |
| `CursorWindowObject.CursorWindow.Execute` | deprecated/android/jni/CursorWindow.cpp:68-293 | Over every run of operations the bytes represent the table of the reference machine, and every status agrees. |
| `CursorWindowObject.CursorWindow.ExecuteThenGet` | deprecated/android/jni/CursorWindow.cpp:68-293 | A read after any run returns what was last put to the field according to the log of operations and statuses. |
| `WindowFill.CopyRowRows` | deprecated/android/jni/com_tencent_wcdb_database_SQLiteConnection.cpp:921-1020 | A copied row is appended whole; a row that does not fit or has a column of no known type leaves no trace in the table. |
| `WindowFill.CopyColumnsSpace` | deprecated/android/jni/com_tencent_wcdb_database_SQLiteConnection.cpp:938-1013 | The columns run out of space exactly when the bytes up to the first column of unknown type do not fit; otherwise such a column is reached, if there is one. |
| `WindowFill.CopyRowExact` | deprecated/android/jni/com_tencent_wcdb_database_SQLiteConnection.cpp:921-1020 | Full exactly when the row does not fit behind the others, in bytes; otherwise copied if every type is known, and an error if not. A row that did not fit does not fit behind what the failed copy left either. |
| `WindowFill.FitsAloneIff` | deprecated/android/jni/com_tencent_wcdb_database_SQLiteConnection.cpp:921-1020 | Exactly when a row fits into a window just cleared, in bytes. |
| `WindowFill.FitsSomewhere` | deprecated/android/jni/com_tencent_wcdb_database_SQLiteConnection.cpp:921-1020 | A row that fits beside others fits alone. |
| `WindowFill.CopyRowInto` | deprecated/android/jni/com_tencent_wcdb_database_SQLiteConnection.cpp:921-1020 | The copy loop on the byte buffer is the copy on the table. |
| `WindowFill.TakeRowKeeps` | deprecated/android/jni/com_tencent_wcdb_database_SQLiteConnection.cpp:1070-1099 | One row of the result keeps the loop invariant: the window holds a contiguous range of rows that reaches up to the required one as long as rows fit alone. |
| `WindowFill.FillEnds` | deprecated/android/jni/com_tencent_wcdb_database_SQLiteConnection.cpp:1049-1119 | Left at the end of the result or with a full window, the invariant gives the claim about the window. |
| `WindowFill.TakeRowFails` | deprecated/android/jni/com_tencent_wcdb_database_SQLiteConnection.cpp:1070-1099 | Taking a row fails exactly when it is not skipped and a column of unknown type is reached, behind the other rows or in the window cleared for it. |
| `WindowFill.DoneStays` | deprecated/android/jni/com_tencent_wcdb_database_SQLiteConnection.cpp:1049-1119 | Once the end of the result was reported or the window is full with no rows left to count, that stays so at every later call. |
| `WindowFill.NothingRaised` | deprecated/android/jni/com_tencent_wcdb_database_SQLiteConnection.cpp:1043-1119 | If no call fails, no seven in a row are busy and every column type is known, no exception is raised. |
| `WindowFill.FillWindow` | deprecated/android/jni/com_tencent_wcdb_database_SQLiteConnection.cpp:1031-1135 | The loop ends for every finite result, whatever the busy answers between rows. An exception is reported exactly when, before the fill is done, a call fails, seven calls in a row are busy, or a row that is taken reaches a column of unknown type. Without one the window holds a contiguous range of result rows from the reported start; the start is the position asked for or a row, up to the required one, that did not fit behind a stretch before it; the range ends where the result does or at a row that does not fit behind it; the required row is in it exactly when every row from the start position up to it fits alone; and the row count is complete when it was asked for. From a negative start position all of this holds with every position that much too low. |
| `WindowFill.CopyOrRestart` | deprecated/android/jni/com_tencent_wcdb_database_SQLiteConnection.cpp:1078-1099 | A row that is not skipped is copied on the buffer as on the table, into a cleared window when the code restarts. |
| `WindowFill.TakeRowInto` | deprecated/android/jni/com_tencent_wcdb_database_SQLiteConnection.cpp:1070-1099 | The loop body on the byte buffer is the step on the table, restart with a cleared window included. |
| `ChunkProtocol.WrapIsCovers` | deprecated/android/jni/ChunkedCursorWindow.cpp:153-181 | The wrapping 32-bit subtraction tests exactly whether a row lies in a chunk. |
| `ChunkProtocol.CoverUnique` | deprecated/android/jni/ChunkedCursorWindow.cpp:205-240 | At most one chunk of the map covers a row. |
| `ChunkProtocol.FindChunkExact` | deprecated/android/jni/ChunkedCursorWindow.cpp:153-181 | Whatever the read cache holds, the look-up returns the one chunk that covers the row, and nothing exactly when there is none. |
| `ChunkProtocol.ConflictEvicts` | deprecated/android/jni/ChunkedCursorWindow.cpp:280-286 | At a conflict there always is a chunk to evict: the one that starts at the row, and otherwise the write chunk. |
| `ChunkProtocol.Step` | deprecated/android/jni/ChunkedCursorWindow.cpp:267-406 | Every call keeps the invariant of order, caches, reference counts and lifetimes. |
| `ChunkProtocol.Run` | deprecated/android/jni/ChunkedCursorWindow.cpp:267-406 | Every run of calls keeps the invariant. |
| `ChunkProtocol.RunsStayOrdered` | deprecated/android/jni/ChunkedCursorWindow.cpp:183-322 | In every reachable state each chunk ends at or before the start of the next, empty chunks included, and the row limit of the write cache is at most the start that really follows. |
| `ChunkProtocol.RunsNeverDangle` | deprecated/android/jni/ChunkedCursorWindow.cpp:39-50 | In every reachable state no map entry, cache or open row refers to a freed chunk, each count is the map entry plus the open rows, and nothing is freed twice. |
| `ChunkProtocol.NothingLeaks` | deprecated/android/jni/ChunkedCursorWindow.cpp:39-50 | When the map is empty and all rows are given back, each chunk ever made has been freed exactly once. |
| `ChunkProtocol.GetRowExact` | deprecated/android/jni/ChunkedCursorWindow.cpp:324-348 | A row is returned exactly when it is there and not being written, and then from the chunk that covers it. |
| `ChunkProtocol.NewRowExact` | deprecated/android/jni/ChunkedCursorWindow.cpp:267-322 | Which rows are there after a new row: the new one if a row object came back, none of an evicted chunk, and every other row as before. |
| `ChunkProtocol.NewRowGranted` | deprecated/android/jni/ChunkedCursorWindow.cpp:267-322 | A row object comes back exactly when nobody is writing, there is room, and the row is the end of the write chunk, unless a new chunk is asked for, or neither start of a chunk nor inside one. |
| `ChunkProtocol.RemoveChunkExact` | deprecated/android/jni/ChunkedCursorWindow.cpp:392-406 | Which chunk is removed: the one that starts at the row, none for a row inside a chunk, and for a row behind the end of a chunk that chunk. |
| `ChunkProtocol.RemovesNone` | deprecated/android/jni/ChunkedCursorWindow.cpp:252-254 | For a row before every chunk, and in an empty map, nothing is removed. |
| `ChunkProtocol.RemoveChunkLoses` | deprecated/android/jni/ChunkedCursorWindow.cpp:392-406 | The range reported is that of the removed chunk, its rows are gone and no others, open rows stay, and the chunk is freed exactly when none of them is its own. |
| `ChunkProtocol.ClearExact` | deprecated/android/jni/ChunkedCursorWindow.cpp:374-390 | After clear no row is there, none is found, every row can be written exactly if there is room, and the open rows are those of before. |
| `ChunkProtocol.ClearFrees` | deprecated/android/jni/ChunkedCursorWindow.cpp:374-390 | A chunk of the map is freed by clear exactly when no open row holds it, and no other chunk is. |
| `ChunkProtocol.WritingMarker` | deprecated/android/jni/ChunkedCursorWindow.cpp:267-390 | The writing marker is set by a row handed out for writing and taken away when a row of that number is ended or rolled back, or by clear; nothing else changes it. |
| `ChunkProtocol.OpenRows` | deprecated/android/jni/ChunkedCursorWindow.cpp:267-406 | A row object given back is closed, and no other; a refused call, a removal and clear leave the open rows alone. |
| `ChunkProtocol.WrittenRow` | deprecated/android/jni/ChunkedCursorWindow.cpp:300-321 | A row handed out for writing is a new row object on the write chunk, which is in the map, and the row after it can be appended next. |
| `ChunkProtocol.ClosingKeepsRows` | deprecated/android/jni/ChunkedCursorWindow.cpp:324-372 | Looking up or ending a row changes no row; rolling back the row being written takes the last row of its chunk away, and no other. |
| `ChunkProtocol.RollbackUndoes` | deprecated/android/jni/ChunkedCursorWindow.cpp:361-372 | A row appended to the write chunk and rolled back leaves map, counts and references as they were. |
| `ChunkProtocol.StaleLimitLosesRows` | deprecated/android/jni/ChunkedCursorWindow.cpp:242-322 | A concrete run in which removing the chunk behind the write chunk leaves a row limit that is too low, so that the next append evicts the write chunk and loses its rows. |
| `ChunkProtocol.NeedlessEvictionExact` | deprecated/android/jni/ChunkedCursorWindow.cpp:183-203 | An append throws the write chunk out exactly when it falls on the end of that chunk, the row limit does not lie behind it, and no chunk of the map starts there. |
| `ChunkProtocol.NeedlessEvictionLoses` | deprecated/android/jni/ChunkedCursorWindow.cpp:242-322 | Then exactly the rows of the write chunk are lost. |
| `ChunkProtocol.LimitKept` | deprecated/android/jni/ChunkedCursorWindow.cpp:183-240 | Every call but removeChunk keeps the row limit equal to the start of the chunk behind the write chunk. |
| `ChunkProtocol.RemovalLimit` | deprecated/android/jni/ChunkedCursorWindow.cpp:242-265 | A removal leaves the limit behind exactly when it takes out the chunk behind the write chunk. |
| `ChunkProtocol.NoNeedlessEviction` | deprecated/android/jni/ChunkedCursorWindow.cpp:183-322 | Over every run without removeChunk, no append throws the write chunk out. |
| `ChunkedCursorWindowObject.ChunkedCursorWindow.constructor` | deprecated/android/jni/ChunkedCursorWindow.cpp:64-73 | No chunks, no caches, no row being written. |
| `ChunkedCursorWindowObject.ChunkedCursorWindow.AcquireChunk` | deprecated/android/jni/ChunkedCursorWindow.cpp:39-44 | One more reference. |
| `ChunkedCursorWindowObject.ChunkedCursorWindow.ReleaseChunk` | deprecated/android/jni/ChunkedCursorWindow.cpp:46-50 | One reference less, and the chunk freed with the last. |
| `ChunkedCursorWindowObject.ChunkedCursorWindow.LowerBoundOf` | deprecated/android/jni/ChunkedCursorWindow.cpp:165-171 | The search loop finds the first chunk that starts at or after the row. |
| `ChunkedCursorWindowObject.ChunkedCursorWindow.FindChunkByRow` | deprecated/android/jni/ChunkedCursorWindow.cpp:153-181 | The cached look-up is the step of the protocol. |
| `ChunkedCursorWindowObject.ChunkedCursorWindow.GetChunkForWriting` | deprecated/android/jni/ChunkedCursorWindow.cpp:183-203 | The chunk to append to, a conflict, or none, as in the protocol. |
| `ChunkedCursorWindowObject.ChunkedCursorWindow.AllocateChunk` | deprecated/android/jni/ChunkedCursorWindow.cpp:205-240 | A new chunk in the map and the write cache with its row limit. |
| `ChunkedCursorWindowObject.ChunkedCursorWindow.RemoveChunkLocked` | deprecated/android/jni/ChunkedCursorWindow.cpp:242-265 | The chunk taken out of the map and of the caches. |
| `ChunkedCursorWindowObject.ChunkedCursorWindow.NewRow` | deprecated/android/jni/ChunkedCursorWindow.cpp:267-322 | State and result are those of the protocol step. |
| `ChunkedCursorWindowObject.ChunkedCursorWindow.GetRow` | deprecated/android/jni/ChunkedCursorWindow.cpp:324-348 | State and result are those of the protocol step. |
| `ChunkedCursorWindowObject.ChunkedCursorWindow.EndRow` | deprecated/android/jni/ChunkedCursorWindow.cpp:350-359 | The state is that of the protocol step. |
| `ChunkedCursorWindowObject.ChunkedCursorWindow.RollbackRow` | deprecated/android/jni/ChunkedCursorWindow.cpp:361-372 | The state is that of the protocol step. |
| `ChunkedCursorWindowObject.ChunkedCursorWindow.Clear` | deprecated/android/jni/ChunkedCursorWindow.cpp:374-390 | The release loop ends in the state of the protocol step, so `ChunkProtocol.ClearExact` and `ChunkProtocol.ClearFrees` say what is left and what is freed. |
| `ChunkedCursorWindowObject.ChunkedCursorWindow.RemoveChunk` | deprecated/android/jni/ChunkedCursorWindow.cpp:392-406 | State and reported range are those of the protocol step. |
| `Varint.GetVarint` | src/common/base/Serialization.cpp:383-551 | The split 32-bit reader equals the plain fold (seven bits a byte, all eight of a ninth) on every byte string and offset. |
| `Varint.GetVarintTail` | src/common/base/Serialization.cpp:446-551 | The same from the fifth byte on. |
| `Varint.GetVarintEnd` | src/common/base/Serialization.cpp:495-551 | The same from the seventh byte on. |
| `Varint.TruncatedExactly` | src/common/base/Serialization.cpp:383-551 | Length 0 is reported exactly when the bytes end before the number does, for every offset. |
| `Varint.Digits` | src/common/base/Serialization.cpp:383-551 | As numbers: a byte is not the last exactly when it is at least 128, each of the first eight gives one more digit in base 128, and the ninth one in base 256. |
| `Varint.RoundTrip` | src/common/base/Serialization.cpp:197-238 | Wherever the encoding of a 64-bit number stands, whatever surrounds it, the reader returns the number and its length, 1 to 9. |
| `Varint.EncodingIsShortest` | src/common/base/Serialization.cpp:197-238 | No bytes that read as a number are shorter than its encoding. |
| `Varint.GroupsExact` | src/common/base/Serialization.cpp:223-227 | The number of groups written is the least that holds the number. |
| `Varint.WriteWide` | src/common/base/Serialization.cpp:214-221 | The nine-byte form, filled from its end. |
| `Varint.CollectGroups` | src/common/base/Serialization.cpp:223-227 | The groups gathered lowest first are the reverse of the encoding. |
| `Varint.WriteGroups` | src/common/base/Serialization.cpp:222-233 | The short form: gathered, unmarked and copied out in reverse. |
| `Varint.WriteVarint` | src/common/base/Serialization.cpp:199-237 | The encoding lands at the cursor and everything before it stays. |
| `SerializationObject.Serialization.Reallocate` | src/common/base/Data.cpp:108-152 | A new buffer starts with the old bytes; without memory nothing changes. |
| `SerializationObject.Serialization.Resize` | src/common/base/Serialization.cpp:88-94 | The buffer is large enough afterwards, by at least doubling when it has to grow, or memory was refused; what was written stays. |
| `SerializationObject.Serialization.Expand` | src/common/base/Serialization.cpp:96-99 | Room for so many more bytes behind the cursor, or a refusal that changes nothing written. |
| `SerializationObject.Serialization.Seek` | src/common/base/Serialization.cpp:41-48 | Where the cursor goes, from either end, and clamped. |
| `SerializationObject.Serialization.Advance` | src/common/base/Serialization.cpp:50-53 | The cursor moves on and stops at the end. |
| `SerializationObject.Serialization.PutVarint` | src/common/base/Serialization.cpp:197-238 | The encoding is appended, or nothing when memory is refused. |
| `SerializationObject.Serialization.PutSized` | src/common/base/Serialization.cpp:117-161 | Length and bytes are appended both or not at all, and both whenever memory is granted; the result is true either way. |
| `SerializationObject.Serialization.Put4BytesUInt` | src/common/base/Serialization.cpp:163-175 | Four big-endian bytes are appended, or nothing. |
| `SerializationObject.Serialization.Finalize` | src/common/base/Serialization.cpp:240-243 | The bytes before the cursor. |
| `SerializationObject.Serialization.PutStream` | src/common/base/Serialization.cpp:117-238 | Any list of items is appended as their encodings, through every growth of the buffer. |
| `SerializationObject.RoundTrip4` | src/common/base/Serialization.cpp:163-175 | A 4-byte integer reads back. |
| `SerializationObject.Digits4` | src/common/base/Serialization.cpp:163-175 | The four bytes are the digits of the integer in base 256, the most significant first. |
| `SerializationObject.ViewInsideExactly` | src/common/base/Serialization.cpp:361-381 | A sized view lies inside the data exactly when offset plus length plus size stays below 2^64. |
| `SerializationObject.WrappedView` | src/common/base/Serialization.cpp:361-381 | Nine bytes 0xff for which the sum wraps: they are accepted, the view starts at the end of the data and is 2^64 - 1 long, and the length taken is 8. |
| `SerializationObject.AdvancesTo` | src/common/base/Serialization.cpp:278-294 | The signed length leads from the offset to the sum of the offsets taken in 64 bits, also where it is negative. |
| `SerializationObject.GoesBackExactly` | src/common/base/Serialization.cpp:278-294 | The cursor goes back exactly when the sum with the offset reaches 2^64 and the length alone does not. |
| `SerializationObject.GoesBack` | src/common/base/Serialization.cpp:278-294 | At offset 20 a size of 2^64 - 20 is accepted and the cursor goes back to 9, whatever the first 20 bytes are. |
| `SerializationObject.SizedRoundTrip` | src/common/base/Serialization.cpp:361-381 | A sized string or blob reads back, wherever it stands. |
| `SerializationObject.ItemRoundTrip` | src/common/base/Serialization.cpp:278-303 | Each kind of item reads back and the cursor is just behind it. |
| `SerializationObject.StreamRoundTrip` | src/common/base/Serialization.cpp:278-381 | A stream of items read with the matching advances gives the same items and ends exactly at its end, whatever surrounds it. |
| `SerializationObject.Deserialization.Seek` | src/common/base/Serialization.cpp:41-48 | Where the cursor goes, from either end, and clamped. |
| `SerializationObject.Deserialization.Advance` | src/common/base/Serialization.cpp:50-53 | The cursor moves by a signed offset as `seek` has it. |
| `SerializationObject.Deserialization.AdvanceVarint` | src/common/base/Serialization.cpp:296-303 | Value and length of the plain reader, and the cursor behind them. |
| `SerializationObject.Deserialization.GetSized` | src/common/base/Serialization.cpp:361-381 | The view of a sized string or blob, or the refusal. |
| `SerializationObject.Deserialization.AdvanceSized` | src/common/base/Serialization.cpp:278-294 | The view, and the cursor at the 64-bit sum of offset, length and size, the length being taken as a signed offset. |
| `SerializationObject.Deserialization.Advance4BytesUInt` | src/common/base/Serialization.cpp:354-359 | The number in four big-endian bytes. |
| `SerializationObject.Deserialization.AdvanceStream` | src/common/base/Serialization.cpp:278-359 | The loop over the kinds reads what the recursive reader does. |
| `SerializationObject.SaveAndLoad` | src/common/base/Serialization.cpp:88-381 | Written with every allocation granted, finalized and read back: the same items and nothing left over. |
| `Notification.MergeIsNetEffect` | deprecated/android/jni/com_tencent_wcdb_database_SQLiteConnection.cpp:204-217 | The table look-ups over a legal history of one row give its net effect: INSERT, DELETE, UPDATE or none. |
| `Notification.MergeOtherwise` | deprecated/android/jni/com_tencent_wcdb_database_SQLiteConnection.cpp:204-217 | The rest of the table: no operation is neutral on either side, and of two operations that cannot follow each other the later is kept. |
| `Notification.StableSortIsStable` | deprecated/android/jni/com_tencent_wcdb_database_SQLiteConnection.cpp:230-230 | Sorted by row id, each row with the same operations in the same order. |
| `Notification.MergeInPlace` | deprecated/android/jni/com_tencent_wcdb_database_SQLiteConnection.cpp:232-250 | The in-place loop leaves the merged operation on the first entry of each row and none on the others, and counts for each operation the first one recorded and every row but the last. |
| `Notification.SortedMergeReports` | deprecated/android/jni/com_tencent_wcdb_database_SQLiteConnection.cpp:228-248 | Each row's entries in the merged list are its recorded operations merged, then nothing. |
| `Notification.NetEffectReported` | deprecated/android/jni/com_tencent_wcdb_database_SQLiteConnection.cpp:204-248 | For every row whose recorded history is legal, the first entry of the row carries the net effect and every other entry is cleared. |
| `Notification.CommitMerge` | deprecated/android/jni/com_tencent_wcdb_database_SQLiteConnection.cpp:226-251 | The whole step on the list and the counters of a table, the empty list included. |
| `Notification.Emit` | deprecated/android/jni/com_tencent_wcdb_database_SQLiteConnection.cpp:299-306 | The emission loop passes all its assertions exactly when every entry carries an operation and no operation has more entries than were counted, and then hands out the ids of each operation. |
| `Notification.EmissionExact` | deprecated/android/jni/com_tencent_wcdb_database_SQLiteConnection.cpp:226-306 | Counts and emission agree exactly for the transactions that touch each row once and do the same to the smallest row id as to the largest; the three arrays are then filled exactly with the ids recorded, and otherwise an assertion fails. |
| `Notification.MixedTransaction` | deprecated/android/jni/com_tencent_wcdb_database_SQLiteConnection.cpp:226-306 | One row inserted and another deleted: the counts are 2, 0 and 0, and an assertion fails. |
| `Notification.RepeatedRow` | deprecated/android/jni/com_tencent_wcdb_database_SQLiteConnection.cpp:226-306 | One row inserted and then updated: a cleared entry is left, and an assertion fails. |
| `Notification.CommitAndEmit` | deprecated/android/jni/com_tencent_wcdb_database_SQLiteConnection.cpp:226-306 | From the recorded list to the ids handed out: when this succeeds, and that the ids are those recorded for each operation. |
| `Unicode.LeadLengthIs` | deprecated/android/jni/Unicode.cpp:433-445 | The shifted constant gives 1 to 4 by the leading bits, continuation bytes counting 1. |
| `Unicode.ClassOf` | deprecated/android/jni/Unicode.cpp:80-103 | The length by range, 0 exactly for surrogates and beyond U+10FFFF. |
| `Unicode.EncodeDecodes` | deprecated/android/jni/Unicode.cpp:80-124 | What is written for a scalar value is well-formed by the syntax of section 4 of RFC 3629 and decodes to the value, whatever follows. |
| `Unicode.DecodeIsSum` | deprecated/android/jni/Unicode.cpp:447-520 | The code point of a well-formed sequence is the sum of what its bytes carry, six bits each behind the lead byte, the most significant first. |
| `Unicode.UnitsAreSum` | deprecated/android/jni/Unicode.cpp:561-573 | A code point of sixteen bits is its own unit; a pair carries ten bits in each unit, counted from U+10000. |
| `Unicode.SurrogateRanges` | deprecated/android/jni/Unicode.cpp:421-422 | The mask tests pick out exactly the ranges D800-DBFF and DC00-DFFF. |
| `Unicode.SequenceEncodes` | deprecated/android/jni/Unicode.cpp:494-522 | A well-formed sequence decodes to a scalar value that is written as the same bytes. |
| `Unicode.UnitsDecode` | deprecated/android/jni/Unicode.cpp:563-573 | The units written for a scalar value are read back as the value (section 2.1 of RFC 2781). |
| `Unicode.PointEncodes` | deprecated/android/jni/Unicode.cpp:349-357 | The front of well-formed UTF-16 is read as a scalar value that is written as the same units (section 2.2 of RFC 2781). |
| `Unicode.RoundTrip16` | deprecated/android/jni/Unicode.cpp:339-577 | Every well-formed UTF-16 text becomes well-formed UTF-8 that converts back to the text. |
| `Unicode.RoundTrip8` | deprecated/android/jni/Unicode.cpp:339-577 | Every well-formed UTF-8 text becomes well-formed UTF-16 that converts back to the text. |
| `Unicode.AlwaysWellFormed8` | deprecated/android/jni/Unicode.cpp:339-363 | Whatever UTF-16 is converted, ill-formed or not, the result is well-formed UTF-8. |
| `Unicode.RoundTripsExactly` | deprecated/android/jni/Unicode.cpp:339-577 | Of all byte strings not cut inside a sequence, exactly the well-formed ones come back unchanged. |
| `Unicode.DriftExact` | deprecated/android/jni/Unicode.cpp:412-431 | For every text not cut inside a pair, the bytes written are the bytes predicted and the drift of the text, a sum over its unpaired high surrogates told from the units alone: the two agree exactly when it is 0. |
| `Unicode.BadPairExact` | deprecated/android/jni/Unicode.cpp:349-359 | For a high surrogate without a low one the two agree exactly when the next unit needs three bytes and what they are joined to is no surrogate. |
| `Unicode.PredictionExact` | deprecated/android/jni/Unicode.cpp:412-431 | When every high surrogate has its low one, lone low surrogates allowed, the predicted length is the number of bytes written. |
| `Unicode.PredictionFallsShort` | deprecated/android/jni/Unicode.cpp:412-431 | A text of a high surrogate and a letter: one byte is predicted and three are written. |
| `Unicode.Utf16ToUtf8Length` | deprecated/android/jni/Unicode.cpp:412-431 | The loop's sum, -1 for the empty text, and how far it is from the length written. |
| `Unicode.Utf8ToUtf16Length` | deprecated/android/jni/Unicode.cpp:524-549 | The number of units the conversion writes, and -1 exactly for text that ends inside a sequence. |
| `Unicode.PutCodePoint` | deprecated/android/jni/Unicode.cpp:107-124 | The bytes written back to front are the encoding, and no others are touched. |
| `Unicode.Utf16ToUtf8` | deprecated/android/jni/Unicode.cpp:339-363 | The bytes and the terminator are written and nothing beyond; an empty text writes nothing. |
| `Unicode.Utf8ToUtf16` | deprecated/android/jni/Unicode.cpp:551-577 | The units are written and nothing beyond, and the end is returned. |
| `Unicode.MeasuredUtf8` | deprecated/android/jni/Unicode.cpp:339-431 | Measured and converted in a buffer of exactly the predicted size and a terminator, lone low surrogates included. |
| `Unicode.MeasuredUtf16` | deprecated/android/jni/Unicode.cpp:524-577 | Measured and converted in a buffer of exactly the predicted size. |
| `Unicode.ThereAndBack16` | deprecated/android/jni/Unicode.cpp:339-577 | Measured, converted and converted back: the UTF-16 text itself. |
| `Unicode.ThereAndBack8` | deprecated/android/jni/Unicode.cpp:339-577 | Measured, converted and converted back: the UTF-8 text itself and its terminator. |
| `RecycleProtocol.HighestBounds` | src/common/base/HighWater.cpp:36-42 | The remembered peak was reached and never exceeded. |
| `RecycleProtocol.SelfAssign` | src/common/base/Recyclable.hpp:82-88 | Assigning a holder to itself changes nothing. |
| `RecycleProtocol.CopyAssignIs` | src/common/base/Recyclable.cpp:41-46 | Retain, release and replace is letting the old value go and taking a copy of the new one, also when both are the same value. |
| `RecycleProtocol.CreateKeeps` | src/common/base/Recyclable.hpp:63-67 | A new value keeps the invariant: counts are numbers of holders, callbacks have run exactly for values nobody holds, the counter is the sum of what is held. |
| `RecycleProtocol.CopyKeeps` | src/common/base/Recyclable.hpp:69-73 | Copy construction keeps the invariant. |
| `RecycleProtocol.MoveKeeps` | src/common/base/Recyclable.hpp:75-80 | Move construction keeps the invariant. |
| `RecycleProtocol.CopyAssignKeeps` | src/common/base/Recyclable.hpp:82-88 | Copy assignment keeps the invariant, self-assignment included. |
| `RecycleProtocol.MoveAssignKeeps` | src/common/base/Recyclable.hpp:90-97 | Move assignment keeps the invariant, self-assignment included. |
| `RecycleProtocol.NullAssignKeeps` | src/common/base/Recyclable.hpp:99-105 | Assignment of null keeps the invariant. |
| `RecycleProtocol.DestroyKeeps` | src/common/base/Recyclable.hpp:115-115 | Destruction keeps the invariant. |
| `RecycleProtocol.StepKeeps` | src/common/base/Recyclable.hpp:57-131 | Every operation keeps the invariant and dangles no reference. |
| `RecycleProtocol.StepHolders` | src/common/base/Recyclable.hpp:57-131 | Which holders there are after each operation and what each holds; a move hands the source's reference to the target and leaves the source null. |
| `RecycleProtocol.MoveCounts` | src/common/base/Recyclable.hpp:75-97 | A move changes no count but that of the value its target lets go, which is one less. |
| `RecycleProtocol.RunKeeps` | src/common/base/Recyclable.hpp:57-131 | Every run of operations keeps the invariant. |
| `RecycleProtocol.RecycledExactlyOnce` | src/common/base/Recyclable.hpp:123-129 | After any run the callback of a value has run once if no holder is left and not at all if one is. |
| `RecycleProtocol.RecycledWithTheLast` | src/common/base/Recyclable.cpp:61-69 | The callback runs in exactly the operation that takes the last holder away. |
| `RecycleProtocol.ReleasesSound` | src/common/base/Recyclable.cpp:64-64 | The asserted positive count holds at every release of every run, those inside copy assignment, move assignment and move construction included. |
| `RecycleProtocol.LevelConserved` | src/common/base/HighWater.cpp:36-47 | After any run the counter is its initial value plus the sizes of the charged buffers still held, and its peak is the maximum of all its values. |
| `RecycleProtocol.NothingLeaks` | src/common/base/Recyclable.hpp:57-131 | When no holder is left every callback has run once and the counter is back at its initial value. |
| `RecyclableObject.HighWater.Increase` | src/common/base/HighWater.cpp:36-42 | Current and peak after an increase. |
| `RecyclableObject.HighWater.Decrease` | src/common/base/HighWater.cpp:44-47 | Current after a decrease, the peak kept. |
| `RecyclableObject.Recyclable.Retain` | src/common/base/Recyclable.cpp:54-59 | One more on the shared counter, seen by all who share it. |
| `RecyclableObject.Recyclable.RunCallback` | src/common/base/Data.cpp:143-148 | The callback is run on the value, and a charged buffer gives its size back. |
| `RecyclableObject.Recyclable.OnUnreferenced` | src/common/base/Recyclable.hpp:123-129 | The callback is run if there is one, and forgotten. |
| `RecyclableObject.Recyclable.Release` | src/common/base/Recyclable.cpp:61-69 | One less, and the callback with the last. |
| `RecyclableObject.Recyclable.NullAssign` | src/common/base/Recyclable.hpp:99-105 | The heap of holders and counters changes as in the protocol step. |
| `RecyclableObject.Recyclable.CopyAssign` | src/common/base/Recyclable.hpp:82-88 | The heap of holders and counters changes as in the protocol step. |
| `RecyclableObject.Recyclable.MoveAssign` | src/common/base/Recyclable.hpp:90-97 | The heap of holders and counters changes as in the protocol step. |
| `RecyclableObject.Recyclable.Destroy` | src/common/base/Recyclable.hpp:115-115 | The heap of holders and counters changes as in the protocol step. |
| `RecyclableObject.Recyclable.Null` | src/common/base/Recyclable.hpp:57-61 | A new null holder. |
| `RecyclableObject.Recyclable.constructor` | src/common/base/MappedData.cpp:44-56 | A new value with count one, charged to the counter before anyone can release it. |
| `RecyclableObject.Recyclable.Copy` | src/common/base/Recyclable.hpp:69-73 | The heap of holders and counters changes as in the protocol step. |
| `RecyclableObject.Recyclable.Move` | src/common/base/Recyclable.hpp:75-80 | The heap of holders and counters changes as in the protocol step. |
| `LruOrder.RunOrdered` | src/common/base/LRUCache.hpp:46-89 | After any run the entries stand in strictly decreasing order of their last put or get, so their keys are distinct, and each has the value put last. |
| `LruOrder.GetReturnsLastPut` | src/common/base/LRUCache.hpp:71-77 | A look-up after any run gives the value put last. |
| `LruOrder.PurgeTakesOldest` | src/common/base/LRUCache.hpp:60-69 | Whatever a purge takes was last used before everything it leaves, and it takes as many as asked for. |
| `LruOrder.OnlyPurgesDrop` | src/common/base/LRUCache.hpp:46-77 | Without a purge a key is there exactly if it was there or is put. |
| `LruOrder.PutEvictsOldest` | src/common/base/LRUCache.hpp:46-58 | A put that purges, after any run, drops exactly one of the keys held before or put: the one whose last use, the put included, is oldest. |
| `LruOrder.SizeAfter` | src/common/base/LRUCache.hpp:46-77 | The size after one more turn of any run: a new key adds one, a put that purges takes one, a purge of n leaves the size less n or 0, a look-up changes nothing. |
| `LruCacheObject.ReplaceLinked` | src/common/base/LRUCache.hpp:46-54 | Pushing a node to the front and erasing the old one of its key keeps list and map linked, each key to its own node. |
| `LruCacheObject.SpliceLinked` | src/common/base/LRUCache.hpp:86-89 | Splicing a node to the front keeps list and map linked. |
| `LruCacheObject.SameSize` | src/common/base/LRUCache.hpp:81-81 | Linked list and map have the same size. |
| `LruCacheObject.LRUCache.Exists` | src/common/base/LRUCache.hpp:79-79 | True exactly for the keys in the list. |
| `LruCacheObject.LRUCache.Size` | src/common/base/LRUCache.hpp:81-81 | The number of entries. |
| `LruCacheObject.LRUCache.Purge` | src/common/base/LRUCache.hpp:60-69 | The loop drops the entries at the end, as many as asked for or all. |
| `LruCacheObject.LRUCache.Put` | src/common/base/LRUCache.hpp:46-58 | The entries change as in the order, eviction included (`LruOrder.PutEvictsOldest`), and list and map stay linked. |
| `LruCacheObject.LRUCache.Get` | src/common/base/LRUCache.hpp:71-89 | The entry goes to the front and its value is returned. |
| `LruCacheObject.LRUCache.Execute` | src/common/base/LRUCache.hpp:46-89 | After any run of calls the list and the map hold the entries in the order of their last use, each with the value put last. |
| `LruCacheObject.LRUCache.ExecuteThenGet` | src/common/base/LRUCache.hpp:71-77 | A look-up after any run returns the value put last. |
| `LruCacheObject.LRUCache.ExecuteThenPurge` | src/common/base/LRUCache.hpp:60-69 | What a purge after any run takes was last used before everything it leaves. |
| `LruCacheObject.LRUCache.ExecuteThenPut` | src/common/base/LRUCache.hpp:46-58 | A put that purges, after any run of calls, leaves in list and map all keys held before or put but one, and that one was used before all of them. |

## Left out

- Notification.CommitMerge: recorded operations are the three SQLite reports, since the source uses the operation as an index into its counters.
- `toNotifyOp` and the map of tables: a constant table and a look-up by name.
- `Serialization::putString`, which never moves the cursor, and fixed-width integers other than four bytes.
- SerializationObject.Serialization.PutSized: the source returns true also when nothing was written, so its result says nothing about success.
- SerializationObject.Serialization.Reallocate: sizes are positive; `Data::reset` with size 0 keeps its old pointer and size.
- SerializationObject.Deserialization.AdvanceStream: a sized item whose view runs past the data, which the source hands out, ends the stream here, since the bytes behind the data are not part of the model.
- SerializationObject.SaveAndLoad: streams are shorter than 2^63 bytes, the range of the signed cursor.
- SerializationObject.Deserialization.Advance4BytesUInt: four bytes must be there, as the source asserts.
- Unicode.Utf16ToUtf8: text must not end in a high surrogate, after which the source reads past the end of its input.
- Unicode.Utf8ToUtf16: text must not end inside a sequence, where the source reads past the end of its input; its callers ask `utf8_to_utf16_length` first.
- Unicode.DriftExact: the same texts, since beyond them what is written depends on memory behind the text.
- `utf8_length`, the UTF-32 converters, `strzcmp16` and `changeToUTF8`: results that depend on the signedness of char, or treat NUL tails specially.
- The destructor, capacity and column count of the chunked window and the pool of its row objects: memory management around the protocol.
- ChunkedCursorWindowObject.ChunkedCursorWindow.AllocateChunk: memory for a chunk is granted, since the source dereferences a null chunk otherwise; its refusal of the column count cannot happen, by `WindowTable.ColumnsTaken`.
- ChunkedCursorWindowObject.ChunkedCursorWindow.NewRow: memory for a chunk is granted, for the same reason.
- SerializationObject.Serialization.Resize: does not model wrap-around of the doubled size, because no buffer of 2^63 bytes can exist.
- SerializationObject.Serialization.Expand: does not model wrap-around of cursor plus expansion, because both count bytes that are in memory.
- CursorWindowObject.CursorWindow.AllocRow: only runs in which no offset sum reaches 2^32, as for `Reserve`.
- CursorWindowObject.CursorWindow.PutBlobOrString: the same.
- CursorWindowObject.CursorWindow.Execute: the same.
- CursorWindowObject.CursorWindow.ExecuteThenGet: the same.
- CursorWindowObject.CursorWindow.Reserve: only where no sum reaches 2^32; what `alloc` does beyond is stated by `Alloc` and `AllocTestExact`.
- `willPurge` overrides of the caches, and the locks around a shared high-water counter.
- Timing and fairness of the operating system's scheduler: who is woken among several is arbitrary.
- Lock guards, the C bridge, JNI glue, files, paths, errors and logging: thin wrappers and system calls.
