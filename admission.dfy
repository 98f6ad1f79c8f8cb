/**
 * The timestamp-ordering admission gate that the workload drivers of all four
 * engines consult before an operation: two per-item high-water marks, the
 * largest transaction id scheduled to read and to write each item.
 * A transaction may read an item unless a younger transaction already
 * wrote it, and may write it unless a younger one already read or wrote it.
 */
module Admission {

  function Max(a: int, b: int): int {
    if a < b then b else a
  }

  class Gate {
    var maxReadScheduled: seq<int>
    var maxWriteScheduled: seq<int>

    ghost predicate Valid()
      reads this
    {
      |maxReadScheduled| == |maxWriteScheduled|
    }

    /** Both arrays are sized to the item table and start at 0. */
    constructor (numItems: nat)
      ensures Valid()
      ensures maxReadScheduled == seq(numItems, _ => 0)
      ensures maxWriteScheduled == seq(numItems, _ => 0)
    {
      maxReadScheduled := seq(numItems, _ => 0);
      maxWriteScheduled := seq(numItems, _ => 0);
    }

    /**
     * A read is refused exactly when a younger transaction was scheduled to
     * write; so admission is closed upwards in ids: every transaction younger
     * than an admitted one is admitted too.
     */
    predicate CanRead(itemId: int, transId: int)
      reads this
      requires 0 <= itemId < |maxWriteScheduled|
      ensures CanRead(itemId, transId) ==>
        forall younger :: transId <= younger ==> Max(maxWriteScheduled[itemId], younger) == younger
    {
      !(transId < maxWriteScheduled[itemId])
    }

    /**
     * A write is refused when a younger transaction was scheduled to read or
     * to write; so a write is never admitted where a read would be refused.
     */
    predicate CanWrite(itemId: int, transId: int)
      reads this
      requires Valid() && 0 <= itemId < |maxWriteScheduled|
      ensures CanWrite(itemId, transId) ==> CanRead(itemId, transId)
      ensures CanWrite(itemId, transId) ==> maxReadScheduled[itemId] <= transId
    {
      !(transId < Max(maxReadScheduled[itemId], maxWriteScheduled[itemId]))
    }

    /** Records an admitted read; the read mark only grows. */
    method ScheduleRead(itemId: int, transId: int)
      requires Valid() && 0 <= itemId < |maxReadScheduled|
      modifies this
      ensures Valid()
      ensures maxReadScheduled == old(maxReadScheduled)[itemId := Max(old(maxReadScheduled[itemId]), transId)]
      ensures maxWriteScheduled == old(maxWriteScheduled)
      ensures forall i :: 0 <= i < |maxReadScheduled| ==> old(maxReadScheduled[i]) <= maxReadScheduled[i]
      ensures forall older :: older < transId ==> !CanWrite(itemId, older)
    {
      maxReadScheduled := maxReadScheduled[itemId := Max(maxReadScheduled[itemId], transId)];
    }

    /** Records an admitted write; the write mark only grows. */
    method ScheduleWrite(itemId: int, transId: int)
      requires Valid() && 0 <= itemId < |maxWriteScheduled|
      modifies this
      ensures Valid()
      ensures maxWriteScheduled == old(maxWriteScheduled)[itemId := Max(old(maxWriteScheduled[itemId]), transId)]
      ensures maxReadScheduled == old(maxReadScheduled)
      ensures forall i :: 0 <= i < |maxWriteScheduled| ==> old(maxWriteScheduled[i]) <= maxWriteScheduled[i]
      ensures forall older :: older < transId ==> !CanRead(itemId, older) && !CanWrite(itemId, older)
    {
      maxWriteScheduled := maxWriteScheduled[itemId := Max(maxWriteScheduled[itemId], transId)];
    }
  }
}
