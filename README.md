# Concurrency-control engines: a Dafny model

This project models four transaction engines over a fixed table of integer items, plus the admission gate their workload drivers consult:

- **BOCC** (`bocc.dfy`): backward-validated optimistic concurrency control.
  - Writes are buffered in the transaction.
  - Every item keeps a write history of (end time, committer id).
  - The engine keeps the set of active (start time, id) pairs.
  - A commit aborts when an item it read was written by a transaction whose end time is at or after its own start time.
  - Each commit attempt then prunes the histories of the items it touched, dropping entries older than the oldest active start time.
- **FOCC-CTA** (`focc.dfy`): forward-validated optimistic concurrency control with current-transaction abort.
  - A read leaves the reader's id as a marker on the item.
  - A commit aborts when an item it is about to overwrite carries another transaction's marker.
  - Both outcomes withdraw the transaction's own markers.
- **O2PL** (`o2pl.dfy`): ticket-ordered two-phase locking with six counters per item.
  - Each operation draws a ticket.
  - Reads and writes proceed once the completion counters reach the ticket.
  - At commit the transaction waits for the release counters to reach each logged ticket, with a one-step self-exemption.
  - It then bumps the release counters.
  - One model serves both `2.cpp` and its stripped copy `1.cpp`. `1.cpp` contains the same `get_op_ctr`, `read`, `write` and `tryCommit` at 1.cpp:44-134, without ids, `begin_trans` or logging.
- **SS2PL** (`ss2pl.dfy`): strict two-phase locking with a non-blocking reader-writer lock per item.
  - The lock holds a reader set and a writer id, where -1 means none.
  - A read is allowed again after the transaction's own write.
  - A sole reader can upgrade to writer.
  - Failed attempts return at once, and commit releases every lock.
- **Admission gate** (`admission.dfy`): the timestamp-ordering rule `canRead`/`canWrite`.
  - Its state is the high-water marks `maxReadScheduled`/`maxWriteScheduled`.
  - The rule is the same in every driver.

`common.dfy` holds the commit outcome and the iteration order of the ordered containers (`std::set`, the keys of `std::map`). Every engine walks these in ascending order.

Each public engine call is one atomic step. Transactions and engines are classes whose methods update their fields in place. Each engine method's `ensures` gives its whole new state in terms of the old one. The specification functions used there are:
- BOCC: `Conflict`, `Installed`, `Collected`, `MinStartTime`;
- FOCC: `Conflict`, `Installed`, `Unmarked`;
- O2PL: `Issued`, `Unlocked`, `Released`.

Separate lemmas prove what those functions mean:
- garbage collection removes exactly the old history entries and never one a running transaction could still conflict with;
- a transaction's own markers never make it abort;
- ticket positions, release accounting, and the limits of the O2PL self-exemption.

Consequences of the code as written, stated as lemmas or contracts:

- **O2PL self-exemption covers one own operation.** Take an item that every earlier transaction has fully released, and suppose no one else releases on it meanwhile.
  - A transaction that touched the item once or twice always passes the commit wait (`ShortSoloLogCommits`).
  - A transaction that wrote it three or more times waits forever on one of its entries (`ThreeWritesBlockSoloCommit`).
  - So does one that ends with a read after a write that was not its first operation, such as read, write, read (`LaterWriteBeforeTrailingRead`).
  - The workload drivers touch each item at most twice (a read, optionally followed by a write), so they never reach these cases.
- **SS2PL write locks are not re-entrant.** `lock_write` by the current writer fails, because the writer is set (`LockWrite`'s contract). `lock_read` by the current writer succeeds.
- **SS2PL `unlock_write` ignores its argument.** It frees the lock whoever holds it (`UnlockWrite`).

## Model

| member | source | states |
|---|---|---|
| Common.Least | bocc.cpp:98 | The first element of a non-empty ordered set is a member of it and is at most every member. |
| Common.Ascending | bocc.cpp:208-210 | Iterating an ordered set visits every element exactly once, in strictly ascending order. This is the order in which the read-write union is locked. |
| Admission.Gate.constructor | bocc.cpp:372-373 | Both high-water-mark arrays have one zero entry per item. |
| Admission.Gate.CanRead | bocc.cpp:258-264 | A read is refused when a younger transaction was scheduled to write the item. Admission is closed upwards in ids: for every transaction at least as young as an admitted one, the write mark is no larger than its id, so it would be admitted too. |
| Admission.Gate.CanWrite | bocc.cpp:258-272 | A write is admitted only where a read would be, and only if no younger transaction was scheduled to read. |
| Admission.Gate.ScheduleRead | bocc.cpp:316 | The read mark becomes the maximum of the old mark and the id, and no mark decreases. Afterwards every older transaction is refused a write. |
| Admission.Gate.ScheduleWrite | bocc.cpp:339 | The write mark becomes the maximum of the old mark and the id, and no mark decreases. Afterwards every older transaction is refused both a read and a write. |
| Bocc.Transaction.constructor | bocc.cpp:54-57 | A new transaction has the given id and start time and empty read set, write set and buffer. |
| Bocc.MinStartTime | bocc.cpp:98 | The oldest active start time is the start time of some active transaction and is at most every active start time. |
| Bocc.Engine.constructor | bocc.cpp:139-145 | The engine starts with `size` items of value 0 and empty history, the id counter at 1, and no active transaction. |
| Bocc.Engine.BeginTrans | bocc.cpp:153-166 | Returns a fresh transaction whose id is the counter. The counter advances by one and (startTime, id) joins the active set. |
| Bocc.Engine.Read | bocc.cpp:168-186 | An item already written returns the buffered value and leaves the read set alone. Otherwise it returns the committed value and adds the item to the read set. No item changes either way. |
| Bocc.Engine.Write | bocc.cpp:188-194 | Only the write set and the buffer change, and a later write to an item replaces its buffered value. |
| Bocc.Engine.Validate | bocc.cpp:212-229 | Succeeds if and only if no item of the read set has a history entry ending at or after the start time. Items only written are never checked. |
| Bocc.Engine.GarbageCollect | bocc.cpp:94-114 | The touched items lose exactly the history entries ending before the oldest active start time. Nothing else changes. |
| Bocc.Engine.Install | bocc.cpp:231-242 | Every buffered value is stored and the (end time, id) entry joins that item's history. Other items are unchanged. |
| Bocc.Engine.Cleanup | bocc.cpp:116-132 | Garbage collection runs while the transaction is still active, so the active set is non-empty. Then exactly its own (startTime, id) pair leaves the active set. |
| Bocc.Engine.TryCommit | bocc.cpp:196-247 | Aborts if and only if validation fails. On commit the writes are installed with (endTime, id); on abort no item changes. In both cases the union of read and write sets is collected and the transaction leaves the active set. The locked items are that union in ascending order. |
| Bocc.CommitInstallsWrites | bocc.cpp:231-242 | After commit and collection, every written item holds its buffered value and records (endTime, id). Every other item keeps its value. |
| Bocc.CollectedRemovesOnlyOld | bocc.cpp:94-114 | Collection never changes a value or adds an entry. It removes an entry if and only if its item is touched and it ends before the bound. |
| Bocc.CollectionKeepsConcurrentWrites | bocc.cpp:94-114 | A history entry that ends at or after the start of a still-active transaction survives collection, so that transaction's validation still sees it. |
| Bocc.ConcurrentWriteForcesAbort | bocc.cpp:214-242 | A write installed by another transaction on an item the reader read, with an end time at or after the reader's start, makes the reader's validation fail. This holds even after that commit's garbage collection, whose bound cannot pass the start of a still-active reader. |
| Focc.Transaction.constructor | focc.cpp:52-54 | A new transaction has the given id and empty read set, write set and buffer. |
| Focc.Engine.constructor | focc.cpp:107-113 | The engine starts with `size` items of value 0 with no markers, and the id counter at 1. |
| Focc.Engine.BeginTrans | focc.cpp:121-127 | Returns a fresh transaction whose id is the counter, and the counter advances by one. |
| Focc.Engine.Read | focc.cpp:129-150 | An item already written returns the buffered value and places no marker. Otherwise it returns the value, adds the reader's marker and the item to the read set, and leaves the value unchanged. |
| Focc.Engine.Write | focc.cpp:152-158 | Only the write set and the buffer change, and a later write replaces the buffered value. |
| Focc.Engine.Validate | focc.cpp:179-190 | Succeeds if and only if no item of the write set carries a marker of another transaction. |
| Focc.Engine.Install | focc.cpp:192-197 | Every buffered value is stored and other items are unchanged. |
| Focc.Engine.Cleanup | focc.cpp:90-102 | The transaction's marker leaves every item of its read set. Nothing else changes. |
| Focc.Engine.TryCommit | focc.cpp:160-202 | Aborts if and only if validation fails. On commit the writes are installed; in both outcomes the own markers are removed. The locked items are the union of read and write sets in ascending order. |
| Focc.OwnMarkersNeverConflict | focc.cpp:181-190 | When every marker on the write set is the transaction's own, validation passes. |
| Focc.CommitOutcome | focc.cpp:185-201 | After commit, written items hold their buffered values and all others keep theirs; after abort no value changes. The committer's markers are gone from its read set and every other transaction's markers are untouched. |
| O2pl.Transaction.constructor | 2.cpp:43-45 | A new transaction has the given id and an empty log. |
| O2pl.Engine.constructor | 2.cpp:88-95 | `m` items with all six counters and the value at 0, and the id counter at 1. |
| O2pl.Engine.BeginTrans | 2.cpp:103-107 | Returns a fresh transaction with an empty log whose id is the counter, and the counter advances by one. |
| O2pl.Engine.GetOpCtr | 2.cpp:73-84 | A read draws `readOpCtr` and leaves it alone. A write draws `writeOpCtr` and advances `readOpCtr`. Both advance `writeOpCtr` by one, and `readOpCtr <= writeOpCtr` is kept. |
| O2pl.Engine.Read | 2.cpp:109-121 | Enabled once `writeItemCtr` reaches the ticket. It returns the value unchanged, logs (ticket, read) and advances `readItemCtr` by one. |
| O2pl.Engine.Write | 2.cpp:123-135 | Enabled once `writeItemCtr + readItemCtr` reaches the ticket. It sets the value, logs (ticket, write) and advances `writeItemCtr` by one. |
| O2pl.Engine.TryCommit | 2.cpp:137-177 | Enabled once every logged entry's wait has ended. Each touched item's release counters then grow by the number of logged reads and writes, and untouched items are unchanged. There is no abort. |
| O2pl.IssuedAllCounts | 1.cpp:44-55 | Drawing tickets for a run of operations advances `readOpCtr` by its writes and `writeOpCtr` by its length, and changes nothing else. |
| O2pl.TicketPosition | 1.cpp:44-55 | A write's ticket is its position after `writeOpCtr`. A read's ticket is `readOpCtr` plus the writes issued before it. |
| O2pl.ReleaseAdvances | 1.cpp:122-133 | Release never lowers a counter. The two release counters grow together by the log length, and nothing else changes. |
| O2pl.SoloCommitRestoresQuiescence | 2.cpp:137-177 | If a transaction touches a fully released item alone and commits, every operation issued on that item is released again. |
| O2pl.ShortSoloLogCommits | 1.cpp:98-121 | A log of one or two operations on a fully released item always passes the commit wait: the single-access rule, and the +1 exemption for the last kind. |
| O2pl.LateWriteBlocksSoloCommit | 2.cpp:149-160 | On a fully released item, a write issued third or later never passes the commit wait. |
| O2pl.ThreeWritesBlockSoloCommit | 1.cpp:110-119 | On a fully released item, three or more own writes leave some entry's wait unsatisfiable. |
| O2pl.LaterWriteBeforeTrailingRead | 2.cpp:149-160 | On a fully released item, a write that is not the first operation blocks the commit when the log ends with a read. |
| Ss2pl.ReaderWriterLock.constructor | 3.cpp:57 | A new lock has no readers and no writer. |
| Ss2pl.ReaderWriterLock.LockRead | 3.cpp:59-76 | Succeeds if and only if the caller is the writer or there is none. Only in the second case is the caller added to the readers, and the writer never changes. Success leaves the caller holding the lock. |
| Ss2pl.ReaderWriterLock.UnlockRead | 3.cpp:78-82 | Removes only the caller from the readers. |
| Ss2pl.ReaderWriterLock.LockWrite | 3.cpp:84-102 | Succeeds if and only if the caller is the sole reader (upgrade) or the lock is entirely free. Success leaves no readers and the caller as writer. Failure, including by the current writer, changes nothing. Readers and a writer never coexist. |
| Ss2pl.ReaderWriterLock.UnlockWrite | 3.cpp:104-108 | Frees the write lock whoever holds it, and leaves the readers unchanged. |
| Ss2pl.Item.constructor | 3.cpp:116-119 | A new item holds 0 and a free lock of its own. |
| Ss2pl.Transaction.constructor | 3.cpp:126-128 | A new transaction has the given id and empty read and write sets. |
| Ss2pl.Engine.constructor | 3.cpp:138-144 | `m` distinct items, each with its own free lock and value 0. The first id is a parameter. |
| Ss2pl.Engine.BeginTrans | 3.cpp:152-156 | Returns a fresh transaction whose id is the counter, and the counter advances by one. |
| Ss2pl.Engine.TryRead | 3.cpp:158-171 | Fails, with the caller's value, read set and lock unchanged, if and only if another writer holds the lock. On success it returns the item value and records the item in the read set. |
| Ss2pl.Engine.TryWrite | 3.cpp:173-186 | Succeeds if and only if the write lock is granted. It then writes the value in place and records the item in the write set. On failure no value, set or lock changes. |
| Ss2pl.Engine.TryCommit | 3.cpp:188-196 | Afterwards the transaction is in no reader set of its read set. Every item of its write set has no writer, every other lock is unchanged, and every lock stays consistent. |

## Left out

- Threads, `work`, `main`, argument parsing, random workload generation and the floating-point statistics are left out. They are the workload driver, not engine logic.
- `logEvent` and the log file are left out, because they are output only.
- `getCurTime` is not modelled. BOCC start and end times are parameters of `BeginTrans` and `TryCommit`, and `TryCommit` accepts any end time, since `high_resolution_clock` need not be monotone. The lemmas that reason about collection state the ordering between end time and collection bound that they need.
- Mutexes and atomics are left out: item locks, `rw_mtx`, the active-set mutex, the log mutex and the drivers' `item_locks`. Each engine call is one atomic step and each atomic is a plain integer.
  - The lock order survives only as the ghost result `locked` of the BOCC and FOCC commits.
  - bocc.cpp:371 and its copies give every entry of `item_locks` the same mutex. That is driver behaviour and is not modelled.
- O2PL spin-waits are preconditions stating that the awaited condition already holds. Their termination is not modelled, and neither is any serialisability argument for O2PL.
- The `long long` counters, ids and times are unbounded integers, so 64-bit overflow is not modelled.
- `new`/`delete` of items are not modelled:
  - BOCC, FOCC and O2PL items are values in a sequence indexed by id;
  - SS2PL items are distinct objects;
  - item ids in range are a precondition.
- `Ss2pl.Engine.constructor` takes the first transaction id as a parameter, because the counter is never initialised at 3.cpp:138-144.
- `1.cpp` sets no transaction id and has no `begin_trans`. Its transactions are the `O2pl.Transaction` objects with whatever id they are given.
- Bocc.Engine.Validate visits each history in an arbitrary order, not ascending (end time, id) order. The outcome does not depend on the order.
- The `canRead`/`canWrite` copies in focc.cpp, 2.cpp and 3.cpp are identical to the ones in bocc.cpp and are modelled once.
