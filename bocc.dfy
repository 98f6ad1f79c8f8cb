/**
 * Backward-validated optimistic concurrency control (BOCC).
 *
 * Writes are buffered in the transaction. Every item keeps a write history of
 * (end time, committer id) pairs, and the engine keeps the set of active
 * (start time, id) pairs. At commit a transaction aborts when an item it read
 * has a history entry whose end time is at or after its own start time.
 * Whatever the outcome, the histories of the touched items are pruned of
 * entries older than the oldest active start time, and the transaction leaves
 * the active set. Clock readings are parameters: the start time is given to
 * BeginTrans and the end time to TryCommit.
 */
module Bocc {
  import opened Common

  /** One committed write in an item's history. */
  datatype WriteEntry = WriteEntry(endTime: int, transId: int)

  /** One active transaction, as registered at begin. */
  datatype ActiveEntry = ActiveEntry(startTime: int, id: int)

  /** A data item: its committed value and its write history. */
  datatype Item = Item(val: int, writeList: set<WriteEntry>)

  class Transaction {
    const id: int
    const startTime: int
    var endTime: int
    var readSet: set<int>
    var writeSet: set<int>
    var writeVals: map<int, int>

    /** The write set is exactly the set of items with a buffered value. */
    ghost predicate Valid()
      reads this
    {
      writeSet == writeVals.Keys
    }

    constructor (id: int, startTime: int)
      ensures Valid()
      ensures this.id == id && this.startTime == startTime
      ensures readSet == {} && writeSet == {} && writeVals == map[]
    {
      this.id := id;
      this.startTime := startTime;
      readSet := {};
      writeSet := {};
      writeVals := map[];
    }
  }

  /** Some entry in the item's history ends at or after `startTime`. */
  predicate WrittenSince(item: Item, startTime: int) {
    exists e :: e in item.writeList && e.endTime >= startTime
  }

  /** Backward validation fails: some item read was written since `startTime`. */
  predicate Conflict(db: seq<Item>, readSet: set<int>, startTime: int) {
    exists i :: i in readSet && 0 <= i < |db| && WrittenSince(db[i], startTime)
  }

  /** The start times of the active transactions. */
  function StartTimes(active: set<ActiveEntry>): set<int> {
    set a | a in active :: a.startTime
  }

  /** The oldest active start time: the first component of the least pair. */
  function MinStartTime(active: set<ActiveEntry>): (m: int)
    requires active != {}
    ensures exists a :: a in active && a.startTime == m
    ensures forall a :: a in active ==> m <= a.startTime
  {
    assert forall a :: a in active ==> a.startTime in StartTimes(active);
    Least(StartTimes(active))
  }

  /** The database after a validated transaction installs its buffered writes. */
  function Installed(db: seq<Item>, writeVals: map<int, int>, entry: WriteEntry): (r: seq<Item>)
    ensures |r| == |db|
  {
    seq(|db|, i requires 0 <= i < |db| =>
      if i in writeVals then Item(writeVals[i], db[i].writeList + {entry}) else db[i])
  }

  /** The history entries that garbage collection keeps. */
  function Pruned(writeList: set<WriteEntry>, minStartTime: int): set<WriteEntry> {
    set e | e in writeList && e.endTime >= minStartTime
  }

  /** The database after garbage collection of the histories of the `touched` items. */
  function Collected(db: seq<Item>, touched: set<int>, minStartTime: int): (r: seq<Item>)
    ensures |r| == |db|
  {
    seq(|db|, i requires 0 <= i < |db| =>
      if i in touched then db[i].(writeList := Pruned(db[i].writeList, minStartTime)) else db[i])
  }

  class Engine {
    var db: seq<Item>
    var ctr: int
    var active: set<ActiveEntry>

    /** `size` items, each of value 0 with an empty history; ids start at 1. */
    constructor (size: nat)
      ensures db == seq(size, _ => Item(0, {}))
      ensures ctr == 1 && active == {}
    {
      db := seq(size, _ => Item(0, {}));
      ctr := 1;
      active := {};
    }

    /** Takes the next id and registers (startTime, id) as active. */
    method BeginTrans(startTime: int) returns (t: Transaction)
      modifies this
      ensures fresh(t) && t.Valid()
      ensures t.id == old(ctr) && t.startTime == startTime
      ensures t.readSet == {} && t.writeSet == {}
      ensures ctr == old(ctr) + 1
      ensures active == old(active) + {ActiveEntry(startTime, t.id)}
      ensures db == old(db)
    {
      var id := ctr;
      ctr := ctr + 1;
      t := new Transaction(id, startTime);
      active := active + {ActiveEntry(t.startTime, id)};
    }

    /**
     * Reads the transaction's own buffered value if it wrote the item;
     * otherwise reads the committed value and adds the item to the read set.
     */
    method Read(t: Transaction, itemIdx: int) returns (localVal: int)
      requires t.Valid() && 0 <= itemIdx < |db|
      modifies t
      ensures t.Valid()
      ensures t.writeSet == old(t.writeSet) && t.writeVals == old(t.writeVals)
      ensures t.endTime == old(t.endTime)
      ensures itemIdx in old(t.writeSet) ==>
                localVal == old(t.writeVals)[itemIdx] && t.readSet == old(t.readSet)
      ensures itemIdx !in old(t.writeSet) ==>
                localVal == db[itemIdx].val && t.readSet == old(t.readSet) + {itemIdx}
    {
      if itemIdx in t.writeSet {
        localVal := t.writeVals[itemIdx];
        return;
      }
      localVal := db[itemIdx].val;
      t.readSet := t.readSet + {itemIdx};
    }

    /** Buffers a write; a later write to the same item replaces the buffered value. */
    method Write(t: Transaction, itemIdx: int, newVal: int)
      requires t.Valid() && 0 <= itemIdx < |db|
      modifies t
      ensures t.Valid()
      ensures t.writeSet == old(t.writeSet) + {itemIdx}
      ensures t.writeVals == old(t.writeVals)[itemIdx := newVal]
      ensures t.readSet == old(t.readSet) && t.endTime == old(t.endTime)
    {
      t.writeSet := t.writeSet + {itemIdx};
      t.writeVals := t.writeVals[itemIdx := newVal];
    }

    /** The validation phase: scans the history of every item read. */
    method Validate(t: Transaction) returns (ok: bool)
      requires forall i :: i in t.readSet ==> 0 <= i < |db|
      ensures ok <==> !Conflict(db, t.readSet, t.startTime)
    {
      var order := Ascending(t.readSet);
      var k := 0;
      while k < |order|
        invariant 0 <= k <= |order|
        invariant forall j :: 0 <= j < k ==> !WrittenSince(db[order[j]], t.startTime)
      {
        var idx := order[k];
        var unseen := db[idx].writeList;
        while unseen != {}
          invariant unseen <= db[idx].writeList
          invariant forall e :: e in db[idx].writeList && e !in unseen ==> e.endTime < t.startTime
        {
          var e :| e in unseen;
          if e.endTime >= t.startTime {
            return false;
          }
          unseen := unseen - {e};
        }
        k := k + 1;
      }
      return true;
    }

    /**
     * Removes, from the history of every item in `touched`, the entries that
     * end before the oldest active start time (collect, then erase).
     */
    method GarbageCollect(touched: set<int>)
      requires active != {}
      requires forall i :: i in touched ==> 0 <= i < |db|
      modifies this
      ensures db == Collected(old(db), touched, MinStartTime(old(active)))
      ensures active == old(active) && ctr == old(ctr)
    {
      var minStartTime := MinStartTime(active);
      var pending := touched;
      while pending != {}
        invariant pending <= touched
        invariant active == old(active) && ctr == old(ctr)
        invariant |db| == |old(db)|
        invariant forall i :: 0 <= i < |db| ==>
          db[i] == if i in touched && i !in pending
                   then old(db)[i].(writeList := Pruned(old(db)[i].writeList, minStartTime))
                   else old(db)[i]
        decreases pending
      {
        var idx := Least(pending);
        var toRemove := set e | e in db[idx].writeList && e.endTime < minStartTime;
        assert db[idx].writeList - toRemove == Pruned(db[idx].writeList, minStartTime);
        db := db[idx := db[idx].(writeList := db[idx].writeList - toRemove)];
        pending := pending - {idx};
      }
    }

    /** The write phase: every buffered value is stored and `entry` joins the item's history. */
    method Install(t: Transaction, entry: WriteEntry)
      requires forall i :: i in t.writeVals ==> 0 <= i < |db|
      modifies this
      ensures db == Installed(old(db), t.writeVals, entry)
      ensures active == old(active) && ctr == old(ctr)
    {
      var pending := t.writeVals.Keys;
      while pending != {}
        invariant pending <= t.writeVals.Keys
        invariant active == old(active) && ctr == old(ctr)
        invariant |db| == |old(db)|
        invariant forall i :: 0 <= i < |db| ==>
          db[i] == if i in t.writeVals && i !in pending
                   then Item(t.writeVals[i], old(db)[i].writeList + {entry})
                   else old(db)[i]
        decreases pending
      {
        var idx := Least(pending);
        db := db[idx := Item(t.writeVals[idx], db[idx].writeList + {entry})];
        pending := pending - {idx};
      }
    }

    /** Garbage collection while still active, then leaving the active set. */
    method Cleanup(t: Transaction, touched: set<int>)
      requires ActiveEntry(t.startTime, t.id) in active
      requires forall i :: i in touched ==> 0 <= i < |db|
      modifies this
      ensures db == Collected(old(db), touched, MinStartTime(old(active)))
      ensures active == old(active) - {ActiveEntry(t.startTime, t.id)}
      ensures ctr == old(ctr)
    {
      GarbageCollect(touched);
      active := active - {ActiveEntry(t.startTime, t.id)};
    }

    /**
     * Locks the read and write sets in ascending order (`locked`), validates,
     * installs the buffered writes with history entry (endTime, id) on
     * success, and cleans up in both outcomes.
     */
    method TryCommit(t: Transaction, endTime: int) returns (status: Status, ghost locked: seq<int>)
      requires t.Valid()
      requires ActiveEntry(t.startTime, t.id) in active
      requires forall i :: i in t.readSet + t.writeSet ==> 0 <= i < |db|
      modifies this, t
      ensures status == Abort <==> Conflict(old(db), t.readSet, t.startTime)
      ensures db == Collected(
                      if status == Commit then Installed(old(db), t.writeVals, WriteEntry(endTime, t.id)) else old(db),
                      t.readSet + t.writeSet,
                      MinStartTime(old(active)))
      ensures active == old(active) - {ActiveEntry(t.startTime, t.id)}
      ensures ctr == old(ctr)
      ensures t.endTime == if status == Commit then endTime else old(t.endTime)
      ensures t.readSet == old(t.readSet) && t.writeSet == old(t.writeSet) && t.writeVals == old(t.writeVals)
      ensures locked == Ascending(t.readSet + t.writeSet)
    {
      var readWriteUnion := t.readSet + t.writeSet;
      locked := Ascending(readWriteUnion);
      var ok := Validate(t);
      if !ok {
        Cleanup(t, readWriteUnion);
        return Abort, locked;
      }
      t.endTime := endTime;
      Install(t, WriteEntry(t.endTime, t.id));
      Cleanup(t, readWriteUnion);
      status := Commit;
    }
  }

  /**
   * After a successful commit and the garbage collection that follows it,
   * every written item holds its buffered value and records (endTime, id),
   * provided the end time is not before the oldest active start; every other
   * item keeps its value.
   */
  lemma CommitInstallsWrites(db: seq<Item>, writeVals: map<int, int>, entry: WriteEntry,
                             touched: set<int>, minStartTime: int)
    requires minStartTime <= entry.endTime
    ensures var after := Collected(Installed(db, writeVals, entry), touched, minStartTime);
      && |after| == |db|
      && (forall i :: 0 <= i < |db| && i in writeVals ==>
            after[i].val == writeVals[i] && entry in after[i].writeList)
      && (forall i :: 0 <= i < |db| && i !in writeVals ==> after[i].val == db[i].val)
  {
  }

  /**
   * Garbage collection never changes a value, never adds a history entry,
   * and removes exactly the entries of the touched items that end before
   * `minStartTime`.
   */
  lemma CollectedRemovesOnlyOld(db: seq<Item>, touched: set<int>, minStartTime: int)
    ensures var after := Collected(db, touched, minStartTime);
      forall i :: 0 <= i < |db| ==>
        && after[i].val == db[i].val
        && after[i].writeList <= db[i].writeList
        && (forall e :: e in db[i].writeList ==>
              (e !in after[i].writeList <==> i in touched && e.endTime < minStartTime))
  {
  }

  /**
   * The safety of garbage collection: a write that ended at or after the
   * start of a transaction that is still active survives collection, so that
   * transaction's validation still sees it.
   */
  lemma CollectionKeepsConcurrentWrites(db: seq<Item>, touched: set<int>, active: set<ActiveEntry>,
                                        i: int, e: WriteEntry, a: ActiveEntry)
    requires 0 <= i < |db| && e in db[i].writeList
    requires a in active && a.startTime <= e.endTime
    ensures e in Collected(db, touched, MinStartTime(active))[i].writeList
  {
  }

  /**
   * Backward validation catches a concurrent commit: when another transaction
   * installs a write to an item in the read set with an end time at or after
   * the reader's start, the reader aborts, even after the garbage collection
   * of that commit, because the reader is still active (so the collection
   * bound is at most its start time).
   */
  lemma ConcurrentWriteForcesAbort(db: seq<Item>, writeVals: map<int, int>, entry: WriteEntry,
                                   touched: set<int>, minStartTime: int,
                                   readSet: set<int>, startTime: int, i: int)
    requires 0 <= i < |db| && i in readSet && i in writeVals
    requires minStartTime <= startTime <= entry.endTime
    ensures Conflict(Collected(Installed(db, writeVals, entry), touched, minStartTime), readSet, startTime)
  {
    var after := Collected(Installed(db, writeVals, entry), touched, minStartTime);
    assert entry in after[i].writeList;
    assert WrittenSince(after[i], startTime);
  }

  /**
   * T1 reads item 5; T2, which started after T1, writes item 5 and commits;
   * then T1 aborts. Without T2's write T1 commits.
   */
  method ScenarioBackwardConflict() {
    var engine := new Engine(10);
    var t1 := engine.BeginTrans(100);
    var v := engine.Read(t1, 5);
    assert v == 0;
    var t2 := engine.BeginTrans(101);
    engine.Write(t2, 5, 7);
    var s2: Status;
    ghost var locked2: seq<int>;
    s2, locked2 := engine.TryCommit(t2, 102);
    assert s2 == Commit;
    assert WriteEntry(102, t2.id) in engine.db[5].writeList;
    var s1: Status;
    ghost var locked1: seq<int>;
    s1, locked1 := engine.TryCommit(t1, 103);
    assert s1 == Abort;
  }

  /** A transaction, alone in the engine, writes `v` to one item and commits. */
  method RunBlindWrite(engine: Engine, itemIdx: int, v: int, startTime: int, endTime: int)
    requires engine.active == {} && 0 <= itemIdx < |engine.db| && startTime <= endTime
    modifies engine
    ensures engine.active == {} && |engine.db| == |old(engine.db)|
    ensures engine.db[itemIdx].val == v
  {
    var t := engine.BeginTrans(startTime);
    engine.Write(t, itemIdx, v);
    ghost var before := engine.db;
    var status: Status;
    ghost var locked: seq<int>;
    status, locked := engine.TryCommit(t, endTime);
    assert status == Commit;
    CommitInstallsWrites(before, t.writeVals, WriteEntry(endTime, t.id), {itemIdx}, startTime);
  }

  /** A single thread writes 10, commits, writes 20, commits, and then reads 20. */
  method ScenarioSequentialWrites() {
    var engine := new Engine(1);
    RunBlindWrite(engine, 0, 10, 1, 2);
    RunBlindWrite(engine, 0, 20, 3, 4);
    var t := engine.BeginTrans(5);
    var v := engine.Read(t, 0);
    assert v == 20;
  }
}
