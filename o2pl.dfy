/**
 * Ticket-ordered optimistic two-phase locking (O2PL), as in both 2.cpp and 1.cpp.
 *
 * Every item carries six counters. Issuing an operation draws a ticket: a
 * read draws `readOpCtr` (left as it is), a write draws `writeOpCtr` and
 * advances `readOpCtr`; both advance `writeOpCtr`. An operation proceeds once
 * the completion counters reach its ticket, and is then logged in the
 * transaction as (ticket, kind). At commit the transaction waits until the
 * release counters reach each logged ticket and then bumps the release
 * counter of each logged kind.
 *
 * Each engine call is one atomic step. A spin-wait becomes a precondition
 * stating that the condition it waits for already holds.
 */
module O2pl {
  import opened Common

  datatype Operation = ReadOp | WriteOp

  /** One logged operation: its ticket and its kind. */
  datatype Entry = Entry(ticket: int, op: Operation)

  /**
   * The six counters and the value of an item: tickets issued, operations
   * completed, and operations released at commit.
   */
  datatype Item = Item(
    readOpCtr: int, writeOpCtr: int,
    readItemCtr: int, writeItemCtr: int,
    readUlockItemCtr: int, writeUlockItemCtr: int,
    val: int)

  /** A freshly constructed item. */
  const NewItem := Item(0, 0, 0, 0, 0, 0, 0)

  /** `readOpCtr` counts issued writes and `writeOpCtr` all issued operations. */
  predicate CountersValid(item: Item) {
    && 0 <= item.readOpCtr <= item.writeOpCtr
    && 0 <= item.readItemCtr && 0 <= item.writeItemCtr
    && 0 <= item.readUlockItemCtr && 0 <= item.writeUlockItemCtr
  }

  /** The ticket drawn by an operation of kind `op`. */
  function Ticket(item: Item, op: Operation): int {
    if op == ReadOp then item.readOpCtr else item.writeOpCtr
  }

  /** The item after an operation of kind `op` drew its ticket. */
  function Issued(item: Item, op: Operation): Item {
    item.(readOpCtr := if op == WriteOp then item.readOpCtr + 1 else item.readOpCtr,
          writeOpCtr := item.writeOpCtr + 1)
  }

  /** The wait of a read: every write ticketed before it has completed. */
  predicate ReadEnabled(item: Item, ticket: int) {
    ticket <= item.writeItemCtr
  }

  /** The wait of a write: every operation ticketed before it has completed. */
  predicate WriteEnabled(item: Item, ticket: int) {
    ticket <= item.writeItemCtr + item.readItemCtr
  }

  /** The log of item `itemId` (an absent key reads as an empty log). */
  function Log(operations: map<int, seq<Entry>>, itemId: int): seq<Entry> {
    if itemId in operations then operations[itemId] else []
  }

  /**
   * The self-exemption at commit: when the item was touched more than once,
   * an entry of the same kind as the item's last logged operation may be
   * one ahead of the release counters.
   */
  function Exemption(v: seq<Entry>, op: Operation): int
    requires |v| > 0
  {
    if |v| > 1 && v[|v| - 1].op == op then 1 else 0
  }

  /** The commit-time wait for entry `i` of an item's log has ended. */
  predicate Released(item: Item, v: seq<Entry>, i: int)
    requires 0 <= i < |v|
  {
    if v[i].op == ReadOp then v[i].ticket <= item.writeUlockItemCtr + Exemption(v, ReadOp)
    else v[i].ticket <= item.writeUlockItemCtr + item.readUlockItemCtr + Exemption(v, WriteOp)
  }

  /** Every wait of the commit phase has ended. */
  predicate CommitEnabled(items: seq<Item>, operations: map<int, seq<Entry>>) {
    forall itemId :: itemId in operations ==>
      && 0 <= itemId < |items|
      && forall i :: 0 <= i < |operations[itemId]| ==> Released(items[itemId], operations[itemId], i)
  }

  /** The number of entries of kind `op` in a log. */
  function CountEntries(v: seq<Entry>, op: Operation): nat {
    if v == [] then 0
    else CountEntries(v[..|v| - 1], op) + (if v[|v| - 1].op == op then 1 else 0)
  }

  /** The item after the release of the operations logged in `v`. */
  function Unlocked(item: Item, v: seq<Entry>): Item {
    item.(readUlockItemCtr := item.readUlockItemCtr + CountEntries(v, ReadOp),
          writeUlockItemCtr := item.writeUlockItemCtr + CountEntries(v, WriteOp))
  }

  /** Every logged entry is a read or a write. */
  lemma {:induction false} EntriesPartition(v: seq<Entry>)
    ensures CountEntries(v, ReadOp) + CountEntries(v, WriteOp) == |v|
  {
    if v != [] {
      EntriesPartition(v[..|v| - 1]);
    }
  }

  /**
   * Release never lowers a counter: each release counter grows by the
   * entries of its kind, together by the length of the log, and nothing
   * else changes.
   */
  lemma ReleaseAdvances(item: Item, v: seq<Entry>)
    ensures var r := Unlocked(item, v);
      && r.readUlockItemCtr >= item.readUlockItemCtr && r.writeUlockItemCtr >= item.writeUlockItemCtr
      && r.readUlockItemCtr + r.writeUlockItemCtr == item.readUlockItemCtr + item.writeUlockItemCtr + |v|
      && r.(readUlockItemCtr := item.readUlockItemCtr, writeUlockItemCtr := item.writeUlockItemCtr) == item
  {
    EntriesPartition(v);
  }

  class Transaction {
    const id: int
    var operations: map<int, seq<Entry>>

    constructor (id: int)
      ensures this.id == id && operations == map[]
    {
      this.id := id;
      operations := map[];
    }
  }

  class Engine {
    var items: seq<Item>
    var transIdCtr: int

    ghost predicate Valid()
      reads this
    {
      forall i :: 0 <= i < |items| ==> CountersValid(items[i])
    }

    /** `m` items with every counter and value 0; ids start at 1. */
    constructor (m: nat)
      ensures Valid()
      ensures items == seq(m, _ => NewItem) && transIdCtr == 1
    {
      items := seq(m, _ => NewItem);
      transIdCtr := 1;
    }

    /** Takes the next id. */
    method BeginTrans() returns (t: Transaction)
      modifies this
      ensures fresh(t) && t.id == old(transIdCtr) && t.operations == map[]
      ensures transIdCtr == old(transIdCtr) + 1 && items == old(items)
    {
      var id := transIdCtr;
      transIdCtr := transIdCtr + 1;
      t := new Transaction(id);
    }

    /** Draws a ticket for an operation of kind `op` on an item. */
    method GetOpCtr(itemId: int, op: Operation) returns (opCtr: int)
      requires Valid() && 0 <= itemId < |items|
      modifies this
      ensures Valid()
      ensures opCtr == Ticket(old(items[itemId]), op)
      ensures items == old(items)[itemId := Issued(old(items[itemId]), op)]
      ensures transIdCtr == old(transIdCtr)
    {
      var item := items[itemId];
      if op == ReadOp {
        opCtr := item.readOpCtr;
      } else {
        opCtr := item.writeOpCtr;
        item := item.(readOpCtr := item.readOpCtr + 1);
      }
      item := item.(writeOpCtr := item.writeOpCtr + 1);
      items := items[itemId := item];
    }

    /** Draws a read ticket, waits for earlier writes, reads and logs (ticket, ReadOp). */
    method Read(t: Transaction, itemId: int) returns (locVal: int)
      requires Valid() && 0 <= itemId < |items|
      requires ReadEnabled(items[itemId], Ticket(items[itemId], ReadOp))
      modifies this, t
      ensures Valid()
      ensures locVal == old(items[itemId].val)
      ensures items == old(items)[itemId := Issued(old(items[itemId]), ReadOp)
                                             .(readItemCtr := old(items[itemId].readItemCtr) + 1)]
      ensures t.operations == old(t.operations)[itemId :=
                Log(old(t.operations), itemId) + [Entry(old(items[itemId].readOpCtr), ReadOp)]]
      ensures transIdCtr == old(transIdCtr)
    {
      var opCtr := GetOpCtr(itemId, ReadOp);
      // the spin-wait has nothing left to wait for
      assert !(opCtr > items[itemId].writeItemCtr);
      locVal := items[itemId].val;
      t.operations := t.operations[itemId := Log(t.operations, itemId) + [Entry(opCtr, ReadOp)]];
      items := items[itemId := items[itemId].(readItemCtr := items[itemId].readItemCtr + 1)];
    }

    /** Draws a write ticket, waits for earlier operations, writes and logs (ticket, WriteOp). */
    method Write(t: Transaction, itemId: int, newVal: int)
      requires Valid() && 0 <= itemId < |items|
      requires WriteEnabled(items[itemId], Ticket(items[itemId], WriteOp))
      modifies this, t
      ensures Valid()
      ensures items == old(items)[itemId := Issued(old(items[itemId]), WriteOp)
                                             .(writeItemCtr := old(items[itemId].writeItemCtr) + 1, val := newVal)]
      ensures t.operations == old(t.operations)[itemId :=
                Log(old(t.operations), itemId) + [Entry(old(items[itemId].writeOpCtr), WriteOp)]]
      ensures transIdCtr == old(transIdCtr)
    {
      var opCtr := GetOpCtr(itemId, WriteOp);
      // the spin-wait has nothing left to wait for
      assert !(opCtr > items[itemId].writeItemCtr + items[itemId].readItemCtr);
      items := items[itemId := items[itemId].(val := newVal)];
      t.operations := t.operations[itemId := Log(t.operations, itemId) + [Entry(opCtr, WriteOp)]];
      items := items[itemId := items[itemId].(writeItemCtr := items[itemId].writeItemCtr + 1)];
    }

    /**
     * The commit: once every wait has ended, every logged operation is
     * released by bumping the release counter of its kind. There is no abort.
     */
    method TryCommit(t: Transaction)
      requires Valid()
      requires CommitEnabled(items, t.operations)
      modifies this
      ensures Valid()
      ensures |items| == |old(items)| && transIdCtr == old(transIdCtr)
      ensures forall k :: 0 <= k < |items| ==>
        items[k] == if k in t.operations then Unlocked(old(items[k]), t.operations[k]) else old(items[k])
    {
      var pending := t.operations.Keys;
      while pending != {}
        invariant pending <= t.operations.Keys
        invariant Valid()
        invariant |items| == |old(items)| && transIdCtr == old(transIdCtr)
        invariant forall k :: 0 <= k < |items| ==>
          items[k] == if k in t.operations && k !in pending
                      then Unlocked(old(items[k]), t.operations[k]) else old(items[k])
        decreases pending
      {
        var itemId := Least(pending);
        var v := t.operations[itemId];
        ghost var before := items;
        var i := 0;
        while i < |v|
          invariant 0 <= i <= |v|
          invariant Valid()
          invariant items == before[itemId := Unlocked(before[itemId], v[..i])]
          invariant transIdCtr == old(transIdCtr)
        {
          assert v[..i + 1][..i] == v[..i];
          if v[i].op == ReadOp {
            items := items[itemId := items[itemId].(readUlockItemCtr := items[itemId].readUlockItemCtr + 1)];
          } else {
            items := items[itemId := items[itemId].(writeUlockItemCtr := items[itemId].writeUlockItemCtr + 1)];
          }
          i := i + 1;
        }
        assert v[..|v|] == v;
        pending := pending - {itemId};
      }
    }
  }

  /** The number of operations of kind `op` in a run of operations. */
  function CountKind(ops: seq<Operation>, op: Operation): (n: nat)
    ensures n <= |ops|
  {
    if ops == [] then 0
    else CountKind(ops[..|ops| - 1], op) + (if ops[|ops| - 1] == op then 1 else 0)
  }

  /** Every operation is a read or a write. */
  lemma {:induction false} KindsPartition(ops: seq<Operation>)
    ensures CountKind(ops, ReadOp) + CountKind(ops, WriteOp) == |ops|
  {
    if ops != [] {
      KindsPartition(ops[..|ops| - 1]);
    }
  }

  /** The item after the operations `ops` drew their tickets one after another. */
  function IssuedAll(item: Item, ops: seq<Operation>): Item {
    if ops == [] then item else Issued(IssuedAll(item, ops[..|ops| - 1]), ops[|ops| - 1])
  }

  /**
   * Drawing tickets advances `readOpCtr` by the number of writes and
   * `writeOpCtr` by the number of operations, and touches nothing else.
   */
  lemma {:induction false} IssuedAllCounts(item: Item, ops: seq<Operation>)
    ensures IssuedAll(item, ops) == item.(readOpCtr := item.readOpCtr + CountKind(ops, WriteOp),
                                          writeOpCtr := item.writeOpCtr + |ops|)
  {
    if ops != [] {
      IssuedAllCounts(item, ops[..|ops| - 1]);
    }
  }

  /**
   * Ticket order: the k-th operation issued after `item` gets, as a write,
   * the position k past `writeOpCtr`; as a read, `readOpCtr` plus the number
   * of writes issued before it. So writes get distinct increasing tickets and
   * a read shares its ticket with the writes it must wait for.
   */
  lemma TicketPosition(item: Item, ops: seq<Operation>, k: int)
    requires 0 <= k < |ops|
    ensures Ticket(IssuedAll(item, ops[..k]), ops[k]) ==
      if ops[k] == WriteOp then item.writeOpCtr + k
      else item.readOpCtr + CountKind(ops[..k], WriteOp)
  {
    IssuedAllCounts(item, ops[..k]);
  }

  /** The log a transaction builds on an item when it issues `ops` there and nobody else does meanwhile. */
  function SoloLog(item: Item, ops: seq<Operation>): (v: seq<Entry>)
    ensures |v| == |ops|
  {
    seq(|ops|, k requires 0 <= k < |ops| => Entry(Ticket(IssuedAll(item, ops[..k]), ops[k]), ops[k]))
  }

  /** The log records the kind of every operation issued. */
  lemma {:induction false} SoloLogCounts(item: Item, ops: seq<Operation>, op: Operation)
    ensures CountEntries(SoloLog(item, ops), op) == CountKind(ops, op)
  {
    if ops != [] {
      var p := ops[..|ops| - 1];
      var v := SoloLog(item, ops);
      forall k | 0 <= k < |p|
        ensures v[..|v| - 1][k] == SoloLog(item, p)[k]
      {
        assert p[..k] == ops[..k];
      }
      assert v[..|v| - 1] == SoloLog(item, p);
      SoloLogCounts(item, p, op);
    }
  }

  /** Every operation issued on the item so far has been released. */
  predicate Quiescent(item: Item) {
    && item.writeUlockItemCtr == item.readOpCtr
    && item.writeUlockItemCtr + item.readUlockItemCtr == item.writeOpCtr
  }

  /** Nobody released an operation on the item between two observations. */
  predicate SameReleases(a: Item, b: Item) {
    a.readUlockItemCtr == b.readUlockItemCtr && a.writeUlockItemCtr == b.writeUlockItemCtr
  }

  /** The commit of a transaction that touched a quiescent item alone leaves it quiescent. */
  lemma SoloCommitRestoresQuiescence(item: Item, ops: seq<Operation>)
    requires Quiescent(item)
    ensures Quiescent(Unlocked(IssuedAll(item, ops), SoloLog(item, ops)))
  {
    IssuedAllCounts(item, ops);
    KindsPartition(ops);
    SoloLogCounts(item, ops, ReadOp);
    SoloLogCounts(item, ops, WriteOp);
  }

  /** Every log of one or two operations on a quiescent item passes the commit wait. */
  lemma ShortSoloLogCommits(item: Item, atCommit: Item, ops: seq<Operation>)
    requires Quiescent(item) && SameReleases(item, atCommit)
    requires 1 <= |ops| <= 2
    ensures forall i :: 0 <= i < |ops| ==> Released(atCommit, SoloLog(item, ops), i)
  {
    forall i | 0 <= i < |ops|
      ensures Released(atCommit, SoloLog(item, ops), i)
    {
      TicketPosition(item, ops, i);
      if i == 1 {
        assert ops[..1][..0] == [];
      }
    }
  }

  /** Some write sits at or after position `CountKind(ops, WriteOp) - 1`. */
  lemma {:induction false} LateWrite(ops: seq<Operation>)
    requires CountKind(ops, WriteOp) > 0
    ensures exists k :: 0 <= k < |ops| && ops[k] == WriteOp && CountKind(ops, WriteOp) - 1 <= k
  {
    var p := ops[..|ops| - 1];
    if ops[|ops| - 1] != WriteOp {
      LateWrite(p);
      var k :| 0 <= k < |p| && p[k] == WriteOp && CountKind(p, WriteOp) - 1 <= k;
      assert ops[k] == WriteOp;
    }
  }

  /**
   * A write issued third or later on a quiescent item can never pass the
   * commit wait while nobody else releases: the self-exemption covers one
   * own operation only.
   */
  lemma LateWriteBlocksSoloCommit(item: Item, atCommit: Item, ops: seq<Operation>, k: int)
    requires Quiescent(item) && SameReleases(item, atCommit)
    requires 2 <= k < |ops| && ops[k] == WriteOp
    ensures !Released(atCommit, SoloLog(item, ops), k)
  {
    TicketPosition(item, ops, k);
  }

  /**
   * So a transaction that wrote a quiescent item three or more times, with
   * nobody else releasing meanwhile, waits forever on one of its entries.
   */
  lemma ThreeWritesBlockSoloCommit(item: Item, atCommit: Item, ops: seq<Operation>)
    requires Quiescent(item) && SameReleases(item, atCommit)
    requires CountKind(ops, WriteOp) > 2
    ensures exists k :: 0 <= k < |ops| && !Released(atCommit, SoloLog(item, ops), k)
  {
    LateWrite(ops);
    var k :| 0 <= k < |ops| && ops[k] == WriteOp && CountKind(ops, WriteOp) - 1 <= k;
    LateWriteBlocksSoloCommit(item, atCommit, ops, k);
  }

  /**
   * A write that is not the first operation on a quiescent item blocks the
   * commit when the item's last logged operation is a read (such as the
   * sequence read, write, read).
   */
  lemma LaterWriteBeforeTrailingRead(item: Item, atCommit: Item, ops: seq<Operation>, k: int)
    requires Quiescent(item) && SameReleases(item, atCommit)
    requires 1 <= k < |ops| && ops[k] == WriteOp && ops[|ops| - 1] == ReadOp
    ensures !Released(atCommit, SoloLog(item, ops), k)
  {
    TicketPosition(item, ops, k);
  }

  /**
   * One transaction reads the fresh item 0, writes 5 to it and commits; every
   * wait is already satisfied, and a second transaction then reads 5.
   */
  method ScenarioReadWriteCommit() {
    var engine := new Engine(1);
    var t1 := engine.BeginTrans();
    var v1 := engine.Read(t1, 0);
    engine.Write(t1, 0, 5);
    assert t1.operations[0] == [Entry(0, ReadOp), Entry(1, WriteOp)];
    engine.TryCommit(t1);
    var t2 := engine.BeginTrans();
    var v2 := engine.Read(t2, 0);
    assert v1 == 0 && v2 == 5;
  }
}
