/**
 * Forward-validated optimistic concurrency control with current-transaction
 * abort (FOCC-CTA).
 *
 * Writes are buffered in the transaction. A read of a committed value leaves
 * the reader's id as a marker on the item. At commit a transaction aborts
 * when an item it is about to overwrite carries a marker of another
 * transaction; otherwise its buffered values are stored. In both outcomes the
 * transaction removes its own markers.
 */
module Focc {
  import opened Common

  /** A data item: its committed value and the ids of its open readers. */
  datatype Item = Item(val: int, readList: set<int>)

  class Transaction {
    const id: int
    var readSet: set<int>
    var writeSet: set<int>
    var writeVals: map<int, int>

    /** The write set is exactly the set of items with a buffered value. */
    ghost predicate Valid()
      reads this
    {
      writeSet == writeVals.Keys
    }

    constructor (id: int)
      ensures Valid() && this.id == id
      ensures readSet == {} && writeSet == {} && writeVals == map[]
    {
      this.id := id;
      readSet := {};
      writeSet := {};
      writeVals := map[];
    }
  }

  /** The item carries a read marker of a transaction other than `id`. */
  predicate ForeignReader(item: Item, id: int) {
    exists r :: r in item.readList && r != id
  }

  /** Forward validation fails: some item to be written has a foreign reader. */
  predicate Conflict(db: seq<Item>, writeSet: set<int>, id: int) {
    exists i :: i in writeSet && 0 <= i < |db| && ForeignReader(db[i], id)
  }

  /** The database after a validated transaction stores its buffered values. */
  function Installed(db: seq<Item>, writeVals: map<int, int>): (r: seq<Item>)
    ensures |r| == |db|
  {
    seq(|db|, i requires 0 <= i < |db| =>
      if i in writeVals then db[i].(val := writeVals[i]) else db[i])
  }

  /** The database after `id` withdraws its markers from the items it read. */
  function Unmarked(db: seq<Item>, readSet: set<int>, id: int): (r: seq<Item>)
    ensures |r| == |db|
  {
    seq(|db|, i requires 0 <= i < |db| =>
      if i in readSet then db[i].(readList := db[i].readList - {id}) else db[i])
  }

  class Engine {
    var db: seq<Item>
    var ctr: int

    /** `size` items, each of value 0 with no readers; ids start at 1. */
    constructor (size: nat)
      ensures db == seq(size, _ => Item(0, {}))
      ensures ctr == 1
    {
      db := seq(size, _ => Item(0, {}));
      ctr := 1;
    }

    /** Takes the next id. */
    method BeginTrans() returns (t: Transaction)
      modifies this
      ensures fresh(t) && t.Valid()
      ensures t.id == old(ctr) && t.readSet == {} && t.writeSet == {}
      ensures ctr == old(ctr) + 1 && db == old(db)
    {
      var id := ctr;
      ctr := ctr + 1;
      t := new Transaction(id);
    }

    /**
     * Reads the transaction's own buffered value if it wrote the item;
     * otherwise reads the committed value, leaves a read marker on the item
     * and adds the item to the read set.
     */
    method Read(t: Transaction, itemIdx: int) returns (localVal: int)
      requires t.Valid() && 0 <= itemIdx < |db|
      modifies this, t
      ensures t.Valid() && ctr == old(ctr)
      ensures t.writeSet == old(t.writeSet) && t.writeVals == old(t.writeVals)
      ensures itemIdx in old(t.writeSet) ==>
                && localVal == old(t.writeVals)[itemIdx]
                && t.readSet == old(t.readSet)
                && db == old(db)
      ensures itemIdx !in old(t.writeSet) ==>
                && localVal == old(db[itemIdx].val)
                && t.readSet == old(t.readSet) + {itemIdx}
                && db == old(db)[itemIdx := old(db[itemIdx]).(readList := old(db[itemIdx].readList) + {t.id})]
    {
      if itemIdx in t.writeSet {
        localVal := t.writeVals[itemIdx];
        return;
      }
      localVal := db[itemIdx].val;
      db := db[itemIdx := db[itemIdx].(readList := db[itemIdx].readList + {t.id})];
      t.readSet := t.readSet + {itemIdx};
    }

    /** Buffers a write; a later write to the same item replaces the buffered value. */
    method Write(t: Transaction, itemIdx: int, newVal: int)
      requires t.Valid() && 0 <= itemIdx < |db|
      modifies t
      ensures t.Valid()
      ensures t.writeSet == old(t.writeSet) + {itemIdx}
      ensures t.writeVals == old(t.writeVals)[itemIdx := newVal]
      ensures t.readSet == old(t.readSet)
    {
      t.writeSet := t.writeSet + {itemIdx};
      t.writeVals := t.writeVals[itemIdx := newVal];
    }

    /** The validation phase: scans the read markers of every item to be written. */
    method Validate(t: Transaction) returns (ok: bool)
      requires forall i :: i in t.writeSet ==> 0 <= i < |db|
      ensures ok <==> !Conflict(db, t.writeSet, t.id)
    {
      var order := Ascending(t.writeSet);
      var k := 0;
      while k < |order|
        invariant 0 <= k <= |order|
        invariant forall j :: 0 <= j < k ==> !ForeignReader(db[order[j]], t.id)
      {
        var idx := order[k];
        var unseen := db[idx].readList;
        while unseen != {}
          invariant unseen <= db[idx].readList
          invariant forall r :: r in db[idx].readList && r !in unseen ==> r == t.id
        {
          var r := Least(unseen);
          if r != t.id {
            return false;
          }
          unseen := unseen - {r};
        }
        k := k + 1;
      }
      return true;
    }

    /** The write phase: every buffered value is stored in its item. */
    method Install(t: Transaction)
      requires forall i :: i in t.writeVals ==> 0 <= i < |db|
      modifies this
      ensures db == Installed(old(db), t.writeVals)
      ensures ctr == old(ctr)
    {
      var pending := t.writeVals.Keys;
      while pending != {}
        invariant pending <= t.writeVals.Keys
        invariant ctr == old(ctr)
        invariant |db| == |old(db)|
        invariant forall i :: 0 <= i < |db| ==>
          db[i] == if i in t.writeVals && i !in pending then old(db)[i].(val := t.writeVals[i]) else old(db)[i]
        decreases pending
      {
        var idx := Least(pending);
        db := db[idx := db[idx].(val := t.writeVals[idx])];
        pending := pending - {idx};
      }
    }

    /** Removes the transaction's marker from every item it read. */
    method Cleanup(t: Transaction)
      requires forall i :: i in t.readSet ==> 0 <= i < |db|
      modifies this
      ensures db == Unmarked(old(db), t.readSet, t.id)
      ensures ctr == old(ctr)
    {
      var pending := t.readSet;
      while pending != {}
        invariant pending <= t.readSet
        invariant ctr == old(ctr)
        invariant |db| == |old(db)|
        invariant forall i :: 0 <= i < |db| ==>
          db[i] == if i in t.readSet && i !in pending
                   then old(db)[i].(readList := old(db)[i].readList - {t.id})
                   else old(db)[i]
        decreases pending
      {
        var idx := Least(pending);
        db := db[idx := db[idx].(readList := db[idx].readList - {t.id})];
        pending := pending - {idx};
      }
    }

    /**
     * Locks the read and write sets in ascending order (`locked`), validates,
     * stores the buffered values on success, and withdraws the transaction's
     * read markers in both outcomes.
     */
    method TryCommit(t: Transaction) returns (status: Status, ghost locked: seq<int>)
      requires t.Valid()
      requires forall i :: i in t.readSet + t.writeSet ==> 0 <= i < |db|
      modifies this
      ensures status == Abort <==> Conflict(old(db), t.writeSet, t.id)
      ensures db == Unmarked(if status == Commit then Installed(old(db), t.writeVals) else old(db),
                             t.readSet, t.id)
      ensures ctr == old(ctr)
      ensures locked == Ascending(t.readSet + t.writeSet)
    {
      var readWriteUnion := t.readSet + t.writeSet;
      locked := Ascending(readWriteUnion);
      var ok := Validate(t);
      if !ok {
        Cleanup(t);
        return Abort, locked;
      }
      Install(t);
      Cleanup(t);
      status := Commit;
    }
  }

  /**
   * A transaction's own read marker never makes it abort: when every marker on
   * its write set is its own, validation passes.
   */
  lemma OwnMarkersNeverConflict(db: seq<Item>, writeSet: set<int>, id: int)
    requires forall i :: i in writeSet && 0 <= i < |db| ==> db[i].readList <= {id}
    ensures !Conflict(db, writeSet, id)
  {
  }

  /**
   * After commit the written items hold their buffered values, every other
   * value is unchanged, and the committer's markers are gone while the
   * markers of every other transaction stay; an abort changes no value.
   */
  lemma CommitOutcome(db: seq<Item>, writeVals: map<int, int>, readSet: set<int>, id: int, committed: bool)
    ensures var after := Unmarked(if committed then Installed(db, writeVals) else db, readSet, id);
      forall i :: 0 <= i < |db| ==>
        && after[i].val == (if committed && i in writeVals then writeVals[i] else db[i].val)
        && id !in (if i in readSet then after[i].readList else {})
        && after[i].readList - {id} == db[i].readList - {id}
  {
  }

  /** T1 reads item 3 and stays open; T2 writes item 3 and aborts at commit. */
  method ScenarioForwardConflict() {
    var engine := new Engine(10);
    var t1 := engine.BeginTrans();
    var v := engine.Read(t1, 3);
    var t2 := engine.BeginTrans();
    engine.Write(t2, 3, 42);
    assert t1.id in engine.db[3].readList && t1.id != t2.id;
    var s2: Status;
    ghost var locked2: seq<int>;
    s2, locked2 := engine.TryCommit(t2);
    assert s2 == Abort;
    assert engine.db[3].val == 0;
  }

  /** A transaction, alone on the item, writes `v` to it and commits. */
  method RunBlindWrite(engine: Engine, itemIdx: int, v: int)
    requires 0 <= itemIdx < |engine.db| && engine.db[itemIdx].readList == {}
    modifies engine
    ensures |engine.db| == |old(engine.db)|
    ensures engine.db[itemIdx] == Item(v, {})
  {
    var t := engine.BeginTrans();
    engine.Write(t, itemIdx, v);
    var status: Status;
    ghost var locked: seq<int>;
    status, locked := engine.TryCommit(t);
    assert status == Commit;
  }

  /** A single thread writes 10, commits, writes 20, commits, and then reads 20. */
  method ScenarioSequentialWrites() {
    var engine := new Engine(1);
    RunBlindWrite(engine, 0, 10);
    RunBlindWrite(engine, 0, 20);
    var t := engine.BeginTrans();
    var v := engine.Read(t, 0);
    assert v == 20;
  }
}
