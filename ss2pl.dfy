/**
 * Strict strong two-phase locking (SS2PL) with non-blocking lock attempts.
 *
 * Every item embeds a reader-writer lock: a set of reader ids and one writer
 * id (-1 when free). A read or write that cannot take its lock fails at once;
 * the caller then retries that one operation until it succeeds or the
 * admission gate refuses it. Locks are held until commit,
 * which releases every read lock and every write lock of the transaction.
 * Writes go straight to the item, since the write lock excludes everyone else.
 */
module Ss2pl {
  import opened Common

  /** The id a free write lock holds. */
  const NoWriter := -1

  class ReaderWriterLock {
    var readers: set<int>
    var writerId: int

    /** Readers and a writer never hold the lock together. */
    ghost predicate Valid()
      reads this
    {
      readers != {} ==> writerId == NoWriter
    }

    constructor ()
      ensures Valid() && readers == {} && writerId == NoWriter
    {
      readers := {};
      writerId := NoWriter;
    }

    /**
     * Succeeds when the lock has no writer or the caller is the writer; only
     * in the first case is the caller added to the readers.
     */
    method LockRead(transId: int) returns (ok: bool)
      requires Valid()
      modifies this
      ensures Valid()
      ensures ok <==> old(writerId) == transId || old(writerId) == NoWriter
      ensures writerId == old(writerId)
      ensures readers == if old(writerId) != transId && old(writerId) == NoWriter
                         then old(readers) + {transId} else old(readers)
      ensures ok ==> transId in readers || writerId == transId
    {
      // the caller already holds the write lock
      if writerId == transId {
        return true;
      }
      if writerId != NoWriter {
        return false;
      }
      readers := readers + {transId};
      return true;
    }

    /** Withdraws the caller from the readers. */
    method UnlockRead(transId: int)
      requires Valid()
      modifies this
      ensures Valid()
      ensures readers == old(readers) - {transId} && writerId == old(writerId)
    {
      readers := readers - {transId};
    }

    /**
     * Succeeds when the caller is the only reader (an upgrade, which drops
     * its read lock) or when nobody holds the lock at all. A writer asking
     * again for its own write lock fails.
     */
    method LockWrite(transId: int) returns (ok: bool)
      requires Valid()
      modifies this
      ensures Valid()
      ensures ok <==> old(readers) == {transId} || (old(writerId) == NoWriter && old(readers) == {})
      ensures ok ==> readers == {} && writerId == transId
      ensures !ok ==> readers == old(readers) && writerId == old(writerId)
    {
      if |readers| == 1 && Least(readers) == transId {
        assert readers - {transId} == {} by {
          assert |readers - {transId}| == 0;
        }
        readers := readers - {transId};
        writerId := transId;
        return true;
      }
      assert readers != {transId};
      if writerId != NoWriter || readers != {} {
        return false;
      }
      writerId := transId;
      return true;
    }

    /** Frees the write lock, whoever holds it. */
    method UnlockWrite(transId: int)
      requires Valid()
      modifies this
      ensures Valid()
      ensures writerId == NoWriter && readers == old(readers)
    {
      writerId := NoWriter;
    }
  }

  class Item {
    const rwLock: ReaderWriterLock
    var val: int

    constructor ()
      ensures fresh(rwLock) && rwLock.Valid()
      ensures rwLock.readers == {} && rwLock.writerId == NoWriter && val == 0
    {
      rwLock := new ReaderWriterLock();
      val := 0;
    }
  }

  class Transaction {
    const id: int
    var readSet: set<int>
    var writeSet: set<int>

    constructor (id: int)
      ensures this.id == id && readSet == {} && writeSet == {}
    {
      this.id := id;
      readSet := {};
      writeSet := {};
    }
  }

  class Engine {
    const items: seq<Item>
    var transIdCtr: int

    /** The locks of all items. */
    ghost function Locks(): set<object>
      reads this
    {
      set i | 0 <= i < |items| :: items[i].rwLock
    }

    /** Items and their locks are distinct objects, and every lock is consistent. */
    ghost predicate Valid()
      reads this, Locks()
    {
      && (forall i, j :: 0 <= i < j < |items| ==> items[i] != items[j] && items[i].rwLock != items[j].rwLock)
      && (forall i :: 0 <= i < |items| ==> items[i].rwLock.Valid())
    }

    /**
     * `m` fresh items, every lock free. The first id is `firstId`, because
     * the id counter is never initialised.
     */
    constructor (m: nat, firstId: int)
      ensures Valid()
      ensures |items| == m && transIdCtr == firstId
      ensures forall i :: 0 <= i < m ==> fresh(items[i]) && fresh(items[i].rwLock)
      ensures forall i :: 0 <= i < m ==>
        items[i].val == 0 && items[i].rwLock.readers == {} && items[i].rwLock.writerId == NoWriter
    {
      var s: seq<Item> := [];
      while |s| < m
        invariant |s| <= m
        invariant forall i :: 0 <= i < |s| ==> fresh(s[i]) && fresh(s[i].rwLock)
        invariant forall i, j :: 0 <= i < j < |s| ==> s[i] != s[j] && s[i].rwLock != s[j].rwLock
        invariant forall i :: 0 <= i < |s| ==>
          s[i].val == 0 && s[i].rwLock.Valid() && s[i].rwLock.readers == {} && s[i].rwLock.writerId == NoWriter
      {
        var item := new Item();
        s := s + [item];
      }
      items := s;
      transIdCtr := firstId;
    }

    /** Takes the next id. */
    method BeginTrans() returns (t: Transaction)
      modifies this
      ensures fresh(t) && t.id == old(transIdCtr) && t.readSet == {} && t.writeSet == {}
      ensures transIdCtr == old(transIdCtr) + 1
    {
      var id := transIdCtr;
      transIdCtr := transIdCtr + 1;
      t := new Transaction(id);
    }

    /**
     * Tries to take the read lock; on success reads the value and records
     * the item in the read set. On failure `locVal` keeps the caller's value.
     */
    method TryRead(t: Transaction, itemId: int, callerVal: int) returns (succ: bool, locVal: int)
      requires Valid() && 0 <= itemId < |items|
      modifies items[itemId].rwLock, t
      ensures Valid()
      ensures succ <==> old(items[itemId].rwLock.writerId) == t.id || old(items[itemId].rwLock.writerId) == NoWriter
      ensures items[itemId].rwLock.writerId == old(items[itemId].rwLock.writerId)
      ensures items[itemId].rwLock.readers ==
        if old(items[itemId].rwLock.writerId) != t.id && old(items[itemId].rwLock.writerId) == NoWriter
        then old(items[itemId].rwLock.readers) + {t.id} else old(items[itemId].rwLock.readers)
      ensures succ ==> locVal == items[itemId].val && t.readSet == old(t.readSet) + {itemId}
      ensures !succ ==> locVal == callerVal && t.readSet == old(t.readSet)
      ensures t.writeSet == old(t.writeSet)
    {
      succ := items[itemId].rwLock.LockRead(t.id);
      if !succ {
        return false, callerVal;
      }
      locVal := items[itemId].val;
      t.readSet := t.readSet + {itemId};
    }

    /**
     * Tries to take the write lock; on success writes the value in place and
     * records the item in the write set.
     */
    method TryWrite(t: Transaction, itemId: int, newVal: int) returns (succ: bool)
      requires Valid() && 0 <= itemId < |items|
      modifies items[itemId].rwLock, items[itemId], t
      ensures Valid()
      ensures succ <==> || old(items[itemId].rwLock.readers) == {t.id}
                        || (old(items[itemId].rwLock.writerId) == NoWriter && old(items[itemId].rwLock.readers) == {})
      ensures succ ==> && items[itemId].rwLock.readers == {} && items[itemId].rwLock.writerId == t.id
                       && items[itemId].val == newVal && t.writeSet == old(t.writeSet) + {itemId}
      ensures !succ ==> && items[itemId].rwLock.readers == old(items[itemId].rwLock.readers)
                        && items[itemId].rwLock.writerId == old(items[itemId].rwLock.writerId)
                        && items[itemId].val == old(items[itemId].val) && t.writeSet == old(t.writeSet)
      ensures t.readSet == old(t.readSet)
    {
      succ := items[itemId].rwLock.LockWrite(t.id);
      if !succ {
        return false;
      }
      items[itemId].val := newVal;
      t.writeSet := t.writeSet + {itemId};
    }

    /**
     * Releases the read lock of every item in the read set, then the write
     * lock of every item in the write set, each in ascending item order.
     */
    method TryCommit(t: Transaction)
      requires Valid()
      requires forall i :: i in t.readSet ==> 0 <= i < |items|
      requires forall i :: i in t.writeSet ==> 0 <= i < |items|
      modifies Locks()
      ensures Valid()
      ensures forall k :: 0 <= k < |items| ==>
        items[k].rwLock.readers ==
          if k in t.readSet then old(items[k].rwLock.readers) - {t.id} else old(items[k].rwLock.readers)
      ensures forall k :: 0 <= k < |items| ==>
        items[k].rwLock.writerId == if k in t.writeSet then NoWriter else old(items[k].rwLock.writerId)
    {
      var pending := t.readSet;
      while pending != {}
        invariant pending <= t.readSet
        invariant forall i :: i in pending ==> 0 <= i < |items|
        invariant Valid()
        invariant forall k :: 0 <= k < |items| ==>
          items[k].rwLock.readers ==
            if k in t.readSet && k !in pending then old(items[k].rwLock.readers) - {t.id}
            else old(items[k].rwLock.readers)
        invariant forall k :: 0 <= k < |items| ==> items[k].rwLock.writerId == old(items[k].rwLock.writerId)
        decreases pending
      {
        var itemId := Least(pending);
        items[itemId].rwLock.UnlockRead(t.id);
        pending := pending - {itemId};
      }
      pending := t.writeSet;
      while pending != {}
        invariant pending <= t.writeSet
        invariant forall i :: i in pending ==> 0 <= i < |items|
        invariant Valid()
        invariant forall k :: 0 <= k < |items| ==>
          items[k].rwLock.readers ==
            if k in t.readSet then old(items[k].rwLock.readers) - {t.id} else old(items[k].rwLock.readers)
        invariant forall k :: 0 <= k < |items| ==>
          items[k].rwLock.writerId ==
            if k in t.writeSet && k !in pending then NoWriter else old(items[k].rwLock.writerId)
        decreases pending
      {
        var itemId := Least(pending);
        items[itemId].rwLock.UnlockWrite(t.id);
        pending := pending - {itemId};
      }
    }
  }

  /**
   * A writer excludes every other transaction, may still read its own item,
   * and cannot take its own write lock a second time.
   */
  method ScenarioWriterExcludes() {
    var lock := new ReaderWriterLock();
    var ok := lock.LockWrite(1);
    assert ok;
    ok := lock.LockRead(2);
    assert !ok;
    ok := lock.LockWrite(2);
    assert !ok;
    ok := lock.LockRead(1);
    assert ok;
    ok := lock.LockWrite(1);
    assert !ok;
  }

  /** A sole reader upgrades to writer; with a second reader the upgrade fails. */
  method ScenarioUpgrade() {
    var lock := new ReaderWriterLock();
    var ok := lock.LockRead(1);
    ok := lock.LockRead(2);
    ok := lock.LockWrite(1);
    assert !ok;
    lock.UnlockRead(2);
    ok := lock.LockWrite(1);
    assert ok && lock.writerId == 1 && lock.readers == {};
  }

  /**
   * T1 writes item 0, so T2 cannot read it; after T1 commits, T2 reads the
   * value T1 wrote.
   */
  method ScenarioCommitReleases() {
    var engine := new Engine(2, 1);
    var t1 := engine.BeginTrans();
    var t2 := engine.BeginTrans();
    var ok := engine.TryWrite(t1, 0, 7);
    assert ok;
    var v: int;
    ok, v := engine.TryRead(t2, 0, 0);
    assert !ok;
    engine.TryCommit(t1);
    ok, v := engine.TryRead(t2, 0, 0);
    assert ok && v == 7;
  }
}
