/** The linked-list queue of one peer and the batch that feeds all of them. */
module ClientQueue {
  import opened Base
  import Relay

  /** A host record on the heap: it may be read and freed only while it is live. */
  class RecordCell {
    const data: HostRecord
    var live: bool
    ghost var home: object?                // the one entry or batch that refers to it

    constructor (data: HostRecord)
      ensures this.data == data && live && home == null
    {
      this.data, live, home := data, true, null;
    }

    method Get() returns (r: HostRecord)
      requires live
      ensures r == data
    {
      r := data;
    }

    method Free()
      requires live
      modifies this`live
      ensures !live
    {
      live := false;
    }
  }

  ghost predicate AllLive(cells: seq<RecordCell>)
    reads cells
  {
    forall i :: 0 <= i < |cells| ==> cells[i].live
  }

  ghost function DataOf(cells: seq<RecordCell>): seq<HostRecord> {
    seq(|cells|, i requires 0 <= i < |cells| => cells[i].data)
  }

  class Entry {
    const record: RecordCell
    ghost const owner: ClientQueue         // the queue the copy was made for
    ghost const place: nat                 // how many entries were made for that queue before it
    var next: Entry?

    /** Allocates the entry and a record of its own, and copies the source into it. */
    constructor (source: RecordCell, ghost owner: ClientQueue, ghost place: nat)
      requires source.live
      ensures fresh(record) && record.live && record.home == this && record.data == source.data
      ensures this.owner == owner && this.place == place && next == null
    {
      var data := source.Get();
      record := new RecordCell(data);
      this.owner := owner;
      this.place := place;
      next := null;
      new;
      record.home := this;
    }
  }

  /** `spine` lists the entries reached from `head`; they were made for `owner` in this order. */
  ghost predicate Chain(head: Entry?, spine: seq<Entry>, owner: ClientQueue, first: nat)
    reads spine
  {
    && head == (if spine == [] then null else spine[0])
    && (forall i :: 0 <= i < |spine| ==> spine[i].owner == owner && spine[i].place == first + i)
    && (forall i {:trigger spine[i].next} :: 0 <= i < |spine| ==>
      spine[i].next == if i + 1 < |spine| then spine[i + 1] else null)
  }

  ghost function CellsOf(spine: seq<Entry>): seq<RecordCell> {
    seq(|spine|, i requires 0 <= i < |spine| => spine[i].record)
  }

  ghost function RecordsOf(spine: seq<Entry>): seq<HostRecord> {
    seq(|spine|, i requires 0 <= i < |spine| => spine[i].record.data)
  }

  lemma CopiedOne(start: seq<HostRecord>, batch: seq<RecordCell>, from: nat, i: nat)
    requires from <= i < |batch|
    ensures start + DataOf(batch[from..i + 1]) == start + DataOf(batch[from..i]) + [batch[i].data]
  {
  }

  /** Each entry has a live record that nothing else refers to. */
  ghost predicate Own(spine: seq<Entry>)
    reads CellsOf(spine)
  {
    var cells := CellsOf(spine);
    forall i :: 0 <= i < |spine| ==> cells[i].live && cells[i].home == spine[i]
  }

  /** Freeing the record of an entry that is not in the list leaves the list its records. */
  lemma ElsewhereOwned(e: Entry, spine: seq<Entry>)
    requires Own(spine) && e !in spine && e.record.home == e
    ensures e.record !in CellsOf(spine)
  {
  }

  lemma Tail(head: Entry?, spine: seq<Entry>, owner: ClientQueue, first: nat)
    requires Chain(head, spine, owner, first) && Own(spine) && head != null
    ensures spine != [] && head == spine[0] && Chain(head.next, spine[1..], owner, first + 1) && Own(spine[1..])
    ensures head !in spine[1..] && head.record.live && head.record.home == head
    ensures RecordsOf(spine[1..]) == RecordsOf(spine)[1..]
  {
    assert spine[0].next == if |spine| > 1 then spine[1] else null;
    forall i | 0 <= i < |spine[1..]|
      ensures spine[1..][i].next == if i + 1 < |spine[1..]| then spine[1..][i + 1] else null
    {
      assert spine[i + 1].next == if i + 2 < |spine| then spine[i + 2] else null;
    }
    forall i | 0 <= i < |spine[1..]|
      ensures CellsOf(spine[1..])[i].live && CellsOf(spine[1..])[i].home == spine[1..][i]
    {
      assert CellsOf(spine)[i + 1] == CellsOf(spine[1..])[i];
    }
    assert CellsOf(spine)[0] == head.record;
  }

  class ClientQueue {
    var head: Entry?
    var hand: Entry?                       // the worker's detached queue
    ghost var spine: seq<Entry>
    ghost var handSpine: seq<Entry>
    ghost var made: nat                    // entries ever made for this queue
    ghost var pc: Relay.WorkerPc
    ghost var settled: seq<Relay.Fate>

    ghost predicate Valid()
      reads this, spine, handSpine, CellsOf(spine), CellsOf(handSpine)
    {
      && |spine| + |handSpine| <= made
      && Chain(head, spine, this, made - |spine|) && Own(spine)
      && Chain(hand, handSpine, this, made - |spine| - |handSpine|) && Own(handSpine)
    }

    ghost function View(): Relay.PeerQueue
      reads this
    {
      Relay.PeerQueue(pc, RecordsOf(spine), RecordsOf(handSpine), settled)
    }

    constructor ()
      ensures Valid()
      ensures View() == Relay.PeerQueue(Relay.Ready, [], [], []) && spine == [] && handSpine == []
    {
      head, hand, spine, handSpine, made, pc, settled := null, null, [], [], 0, Relay.Ready, [];
    }

    method LinkFirst(source: RecordCell) returns (e: Entry)
      requires Valid() && head == null && source.live
      modifies this`head, this`spine, this`made
      ensures Valid() && spine == [e] && fresh(e) && fresh(e.record)
      ensures RecordsOf(spine) == [source.data]
    {
      e := new Entry(source, this, made);
      head, spine, made := e, [e], made + 1;
    }

    /** Links one more copy behind the last entry. */
    method LinkOne(last: Entry, source: RecordCell) returns (e: Entry)
      requires Valid() && spine != [] && last == spine[|spine| - 1] && source.live
      modifies this`spine, this`made, last
      ensures Valid() && spine == old(spine) + [e] && fresh(e) && fresh(e.record)
      ensures RecordsOf(spine) == old(RecordsOf(spine)) + [source.data]
    {
      e := new Entry(source, this, made);
      last.next := e;
      spine := spine + [e];
      made := made + 1;
    }

    /** Links fresh copies of batch[from..] behind the last entry. */
    method LinkBehind(last: Entry, batch: seq<RecordCell>, from: nat)
      requires Valid() && spine != [] && last == spine[|spine| - 1] && from <= |batch| && AllLive(batch)
      modifies this`spine, this`made, last
      ensures Valid()
      ensures old(spine) <= spine
      ensures forall i :: |old(spine)| <= i < |spine| ==> fresh(spine[i]) && fresh(spine[i].record)
      ensures RecordsOf(spine) == old(RecordsOf(spine)) + DataOf(batch[from..])
    {
      assert batch[from..|batch|] == batch[from..];
      var ptr := last;
      ghost var start := RecordsOf(spine);
      for i := from to |batch|
        invariant Valid() && spine != [] && ptr == spine[|spine| - 1] && (ptr == last || fresh(ptr))
        invariant old(spine) <= spine && RecordsOf(spine) == start + DataOf(batch[from..i])
        invariant forall k :: |old(spine)| <= k < |spine| ==> fresh(spine[k]) && fresh(spine[k].record)
      {
        CopiedOne(start, batch, from, i);
        ptr := LinkOne(ptr, batch[i]);
      }
    }

    method Last() returns (ptr: Entry)
      requires Valid() && head != null
      ensures spine != [] && ptr == spine[|spine| - 1]
    {
      ptr := head;
      ghost var k := 0;
      while ptr.next != null
        invariant k < |spine| && ptr == spine[k]
        decreases |spine| - k
      {
        assert spine[k].next == ptr.next;
        ptr := ptr.next;
        k := k + 1;
      }
      assert spine[k].next == null;
    }

    /** Starts a queue that is empty, or walks to the end of one that is not. */
    method Link(batch: seq<RecordCell>)
      requires Valid() && batch != [] && AllLive(batch)
      modifies this`head, this`spine, this`made, spine
      ensures Valid()
      ensures old(spine) <= spine
      ensures forall i :: |old(spine)| <= i < |spine| ==> fresh(spine[i]) && fresh(spine[i].record)
      ensures RecordsOf(spine) == old(RecordsOf(spine)) + DataOf(batch)
    {
      if head == null {
        var e := LinkFirst(batch[0]);
        LinkBehind(e, batch, 1);
        assert batch == [batch[0]] + batch[1..];
      } else {
        var ptr := Last();
        LinkBehind(ptr, batch, 0);
      }
    }

    /** Appends copies of the records and signals the worker. */
    method Append(batch: seq<RecordCell>)
      requires Valid() && batch != [] && AllLive(batch)
      modifies this`head, this`spine, this`made, this`pc, spine
      ensures Valid()
      ensures old(spine) <= spine
      ensures forall i :: |old(spine)| <= i < |spine| ==>
        fresh(spine[i]) && fresh(spine[i].record) && spine[i].record !in batch
      ensures View() == Relay.Appended(old(View()), DataOf(batch))
    {
      Link(batch);
      pc := if pc == Relay.Waiting then Relay.Woken else pc;
    }

    /** Under the mutex: wait if the queue is empty, otherwise detach all of it. */
    method Check()
      requires Valid() && (pc == Relay.Ready || pc == Relay.Woken) && handSpine == []
      modifies this
      ensures Valid()
      ensures View() == Relay.Checked(old(View()))
    {
      if head == null {
        pc := Relay.Waiting;
      } else {
        hand, head := head, null;
        handSpine, spine := spine, [];
        pc := Relay.Busy;
      }
    }

    /** Reads the record of the entry in hand and frees it; no other entry refers to it. */
    method Release() returns (r: HostRecord)
      requires Valid() && hand != null
      modifies hand.record`live
      ensures handSpine != [] && hand == handSpine[0] && r == hand.record.data && !hand.record.live
      ensures Chain(head, spine, this, made - |spine|) && Own(spine)
      ensures Chain(hand.next, handSpine[1..], this, made - |spine| - |handSpine[1..]|) && Own(handSpine[1..])
      ensures RecordsOf(handSpine[1..]) == RecordsOf(handSpine)[1..]
    {
      Tail(hand, handSpine, this, made - |spine| - |handSpine|);
      ElsewhereOwned(hand, spine);
      ElsewhereOwned(hand, handSpine[1..]);
      r := hand.record.Get();
      hand.record.Free();
    }

    /** Sends or drops the entry in hand and moves on to the next. */
    method SettleOne(sent: bool)
      requires Valid() && hand != null
      modifies this`hand, this`handSpine, this`settled, hand.record`live
      ensures Valid()
      ensures View() == Relay.Settled(old(View()), sent) && !old(hand).record.live
    {
      var r := Release();
      settled := settled + [Relay.Fate(r, sent)];
      hand := hand.next;
      handSpine := handSpine[1..];
    }
  }

  /** Two queues have no entries in common. */
  lemma Apart(p: ClientQueue, q: ClientQueue)
    requires p.Valid() && q.Valid() && p != q
    ensures forall e :: e in p.spine ==> e !in q.spine
    ensures forall e :: e in p.handSpine ==> e !in q.spine
  {
  }

  twostate lemma StaysValid(q: ClientQueue)
    requires old(q.Valid())
    requires unchanged(q) && unchanged(q.spine) && unchanged(q.handSpine)
    requires unchanged(CellsOf(q.spine)) && unchanged(CellsOf(q.handSpine))
    ensures q.Valid()
  {
  }
}
