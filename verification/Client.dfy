/** The temporary record vector of the client and its fan-out to the peer queues. */
module Client {
  import opened Base
  import Relay
  import Q = ClientQueue

  const MAX_QUEUES := 256

  predicate Distinct(queues: seq<Q.ClientQueue>) {
    forall i, j :: 0 <= i < j < |queues| ==> queues[i] != queues[j]
  }

  /** Each entry has a record of its own, and `cells` holds these records. */
  ghost predicate EachOwns(entries: set<Q.Entry>, cells: set<Q.RecordCell>)
    reads cells
  {
    && (forall e :: e in entries ==> e.record in cells && e.record.home == e)
    && (forall c :: c in cells ==> c.home is Q.Entry)
  }

  /** The queues are in order and `entries` holds all that is linked into them. */
  ghost predicate QueuesValid(queues: seq<Q.ClientQueue>, entries: set<Q.Entry>, cells: set<Q.RecordCell>)
    reads queues, entries, cells
  {
    && EachOwns(entries, cells)
    && (forall i :: 0 <= i < |queues| ==>
      && (forall e :: e in queues[i].spine ==> e in entries && e.record in cells)
      && (forall e :: e in queues[i].handSpine ==> e in entries && e.record in cells))
    && (forall i :: 0 <= i < |queues| ==> queues[i].Valid())
  }

  ghost function Views(queues: seq<Q.ClientQueue>): seq<Relay.PeerQueue>
    reads queues
  {
    seq(|queues|, i requires 0 <= i < |queues| reads queues => queues[i].View())
  }

  /** One queue gets its copies; the others do not notice, since no entry has two owners. */
  method AppendOne(queues: seq<Q.ClientQueue>, i: nat, batch: seq<Q.RecordCell>)
    requires Distinct(queues) && i < |queues| && batch != [] && Q.AllLive(batch)
    requires forall j :: 0 <= j < |queues| ==> queues[j].Valid()
    modifies queues[i], queues[i].spine
    ensures forall j :: 0 <= j < |queues| ==> queues[j].Valid()
    ensures forall j :: 0 <= j < |queues| && j != i ==> unchanged(queues[j])
    ensures queues[i].handSpine == old(queues[i].handSpine) && old(queues[i].spine) <= queues[i].spine
    ensures forall k :: |old(queues[i].spine)| <= k < |queues[i].spine| ==>
      fresh(queues[i].spine[k]) && fresh(queues[i].spine[k].record) && queues[i].spine[k].record !in batch
    ensures queues[i].View() == Relay.Appended(old(queues[i].View()), Q.DataOf(batch))
  {
    forall j | 0 <= j < |queues| && j != i
      ensures forall e :: e in queues[j].spine ==> e !in queues[i].spine
      ensures forall e :: e in queues[j].handSpine ==> e !in queues[i].spine
    {
      Q.Apart(queues[j], queues[i]);
    }
    queues[i].Append(batch);
    forall j | 0 <= j < |queues| && j != i
      ensures queues[j].Valid()
    {
      Q.StaysValid(queues[j]);
    }
  }

  /** The same, with the set of all linked entries kept up to date. */
  method AppendTo(queues: seq<Q.ClientQueue>, i: nat, batch: seq<Q.RecordCell>,
                  ghost entries: set<Q.Entry>, ghost cells: set<Q.RecordCell>)
    returns (ghost entries': set<Q.Entry>, ghost cells': set<Q.RecordCell>)
    requires Distinct(queues) && i < |queues| && batch != [] && Q.AllLive(batch) && QueuesValid(queues, entries, cells)
    modifies queues[i], entries
    ensures entries <= entries' && fresh(entries' - entries) && QueuesValid(queues, entries', cells')
    ensures forall e :: e in entries' - entries ==> fresh(e.record) && e.record !in batch
    ensures forall j :: 0 <= j < |queues| ==>
      var was := old(queues[j].View());
      queues[j].View() == if j == i then Relay.Appended(was, Q.DataOf(batch)) else was
  {
    AppendOne(queues, i, batch);
    entries' := entries + set e | e in queues[i].spine;
    cells' := cells + set c | c in Q.CellsOf(queues[i].spine);
    assert forall e :: e in queues[i].spine ==> e.record in Q.CellsOf(queues[i].spine);
  }

  /** Gives every queue its own copies of the batch. */
  method FanOut(queues: seq<Q.ClientQueue>, batch: seq<Q.RecordCell>,
                  ghost entries: set<Q.Entry>, ghost cells: set<Q.RecordCell>)
    returns (ghost entries': set<Q.Entry>, ghost cells': set<Q.RecordCell>)
    requires Distinct(queues) && batch != [] && Q.AllLive(batch) && QueuesValid(queues, entries, cells)
    modifies queues, entries
    ensures entries <= entries' && fresh(entries' - entries) && QueuesValid(queues, entries', cells')
    ensures forall e :: e in entries' - entries ==> fresh(e.record) && e.record !in batch
    ensures Views(queues) == Relay.AppendedTo(old(Views(queues)), Q.DataOf(batch), |queues|)
  {
    entries', cells' := entries, cells;
    ghost var before := Views(queues);
    for i := 0 to |queues|
      invariant entries <= entries' && fresh(entries' - entries) && QueuesValid(queues, entries', cells')
      invariant forall e :: e in entries' - entries ==> fresh(e.record) && e.record !in batch
      invariant Views(queues) == Relay.AppendedTo(before, Q.DataOf(batch), i)
    {
      ghost var some := Views(queues);
      entries', cells' := AppendTo(queues, i, batch, entries', cells');
      Relay.AppendedStep(before, Q.DataOf(batch), i);
      assert Views(queues) == some[i := Relay.Appended(some[i], Q.DataOf(batch))];
    }
  }

  /** The batch is made of different live records that belong to `owner`. */
  ghost predicate BatchValid(batch: seq<Q.RecordCell>, owner: object)
    reads batch
  {
    && (forall i :: 0 <= i < |batch| ==> batch[i].live && batch[i].home == owner)
    && (forall i, j :: 0 <= i < j < |batch| ==> batch[i] != batch[j])
  }

  ghost predicate Holds(temp: array<Q.RecordCell?>, batch: seq<Q.RecordCell>)
    reads temp
  {
    |batch| <= temp.Length && forall i :: 0 <= i < |batch| ==> temp[i] == batch[i]
  }

  /** Allocates one more record for the batch and fills it in. */
  method NewCell(temp: array<Q.RecordCell?>, n: nat, r: HostRecord, owner: object, ghost batch: seq<Q.RecordCell>)
    returns (cell: Q.RecordCell)
    requires n == |batch| < temp.Length && Holds(temp, batch) && BatchValid(batch, owner)
    modifies temp
    ensures fresh(cell) && cell.data == r && Holds(temp, batch + [cell]) && BatchValid(batch + [cell], owner)
  {
    cell := new Q.RecordCell(r);
    cell.home := owner;
    temp[n] := cell;
  }

  /** Frees the records of the batch and clears its slots. */
  method Wipe(temp: array<Q.RecordCell?>, n: nat, ghost batch: seq<Q.RecordCell>, ghost owner: object)
    requires n == |batch| && Holds(temp, batch) && BatchValid(batch, owner)
    modifies temp, batch`live
    ensures forall i :: 0 <= i < n ==> temp[i] == null && !batch[i].live
  {
    for i := 0 to n
      invariant forall j :: 0 <= j < i ==> temp[j] == null && !batch[j].live
      invariant forall j :: i <= j < n ==> temp[j] == batch[j] && batch[j].live
    {
      var cell := temp[i];
      assert cell == batch[i];
      cell.Free();
      temp[i] := null;
    }
  }

  /** The entries have records of their own, so freeing a batch that is not one of them leaves the queues alone. */
  method FreeBatch(temp: array<Q.RecordCell?>, n: nat, ghost batch: seq<Q.RecordCell>, ghost owner: object,
                   ghost queues: seq<Q.ClientQueue>, ghost entries: set<Q.Entry>, ghost cells: set<Q.RecordCell>)
    requires n == |batch| && Holds(temp, batch) && BatchValid(batch, owner) && QueuesValid(queues, entries, cells)
    requires !(owner is Q.Entry)
    modifies temp, batch`live
    ensures QueuesValid(queues, entries, cells)
    ensures forall i :: 0 <= i < n ==> temp[i] == null && !batch[i].live
  {
    assert forall c :: c in cells ==> c !in batch;
    Wipe(temp, n, batch, owner);
  }

  method NewQueues(n: nat) returns (qs: seq<Q.ClientQueue>)
    ensures |qs| == n && Distinct(qs)
    ensures forall i :: 0 <= i < n ==>
      && fresh(qs[i]) && qs[i].Valid() && qs[i].spine == [] && qs[i].handSpine == []
      && qs[i].View() == Relay.PeerQueue(Relay.Ready, [], [], [])
  {
    qs := [];
    for i := 0 to n
      invariant |qs| == i && Distinct(qs)
      invariant forall j :: 0 <= j < i ==>
        && fresh(qs[j]) && qs[j].Valid() && qs[j].spine == [] && qs[j].handSpine == []
        && qs[j].View() == Relay.PeerQueue(Relay.Ready, [], [], [])
    {
      var q := new Q.ClientQueue();
      qs := qs + [q];
    }
  }

  class Client {
    const count: nat                       // configured agents, up to the maximum
    const temp: array<Q.RecordCell?>
    var queues: seq<Q.ClientQueue>
    var fill: nat
    var started: bool
    ghost var batch: seq<Q.RecordCell>
    ghost var accepted: seq<HostRecord>
    ghost var entries: set<Q.Entry>
    ghost var cells: set<Q.RecordCell>

    ghost predicate Valid()
      reads this, temp, batch, queues, entries, cells
    {
      && count <= MAX_QUEUES && Distinct(queues)
      && (if started then |queues| == count else queues == [] && fill == 0 && accepted == [])
      && temp.Length == Relay.BATCH_LENGTH && |batch| == fill && Holds(temp, batch) && BatchValid(batch, this)
      && QueuesValid(queues, entries, cells)
    }

    /** The agent's relay state while the client is not in the middle of a flush. */
    ghost function View(): Relay.State
      reads this, queues
    {
      Relay.State(Q.DataOf(batch), false, 0, if started then Views(queues) else Relay.Init(count).queues, accepted)
    }

    constructor (agents: nat)
      ensures Valid() && !started && count == (if agents < MAX_QUEUES then agents else MAX_QUEUES)
      ensures View() == Relay.Init(count) && fresh(temp)
    {
      count := if agents < MAX_QUEUES then agents else MAX_QUEUES;
      temp := new Q.RecordCell?[Relay.BATCH_LENGTH](i => null);
      queues, fill, started, batch, accepted, entries, cells := [], 0, false, [], [], {}, {};
    }

    /** Creates one empty queue per configured agent and opens the client. */
    method Start()
      requires Valid() && !started
      modifies this
      ensures Valid() && started && fresh(queues) && View() == old(View()) && entries == {}
    {
      var qs := NewQueues(count);
      queues, fill, started, entries, cells := qs, 0, true, {}, {};
    }

    method Flush()
      requires Valid()
      modifies this`fill, this`batch, this`accepted, this`entries, this`cells, temp, queues, entries, batch`live
      ensures Valid() && fresh(entries - old(entries)) && forall c :: c in batch ==> c in old(batch)
      ensures View() == if started then Relay.Flushed(old(View())) else old(View())
      ensures started ==> batch == []
    {
      if !started || fill < 1 {
        return;
      }
      ghost var before := View();
      Distribute();
      Relay.FlushRun(before);
      assert View() == Relay.ServedTo(before, |queues|).(batch := [], flushing := false, served := 0);
    }

    /** Hands the batch to all queues, then frees it. */
    method Distribute()
      requires Valid() && fill > 0
      modifies this`fill, this`batch, this`accepted, this`entries, this`cells, temp, queues, entries, batch`live
      ensures Valid() && fresh(entries - old(entries)) && fill == 0 && accepted == old(accepted)
      ensures Views(queues) == Relay.AppendedTo(old(Views(queues)), old(Q.DataOf(batch)), |queues|)
      ensures forall c :: c in old(batch) ==> !c.live
    {
      var sources: seq<Q.RecordCell> := temp[..fill];
      assert sources == batch;
      ghost var all, allCells := FanOut(queues, sources, entries, cells);
      Reset(all, allCells);
    }

    /** Bookkeeping that leaves the queues alone. */
    method Note(n: nat, ghost holding: seq<Q.RecordCell>, ghost taken: seq<HostRecord>,
                ghost all: set<Q.Entry>, ghost allCells: set<Q.RecordCell>)
      requires QueuesValid(queues, all, allCells)
      modifies this`fill, this`batch, this`accepted, this`entries, this`cells
      ensures fill == n && batch == holding && accepted == taken && entries == all && cells == allCells
      ensures QueuesValid(queues, all, allCells) && Views(queues) == old(Views(queues))
    {
      fill, batch, accepted, entries, cells := n, holding, taken, all, allCells;
      forall i | 0 <= i < |queues|
        ensures queues[i].Valid()
      {
        Q.StaysValid(queues[i]);
      }
    }

    /** Frees the batch; the copies in the queues have records of their own and stay as they are. */
    method Reset(ghost all: set<Q.Entry>, ghost allCells: set<Q.RecordCell>)
      requires |batch| == fill && Holds(temp, batch) && BatchValid(batch, this) && QueuesValid(queues, all, allCells)
      modifies this`fill, this`batch, this`accepted, this`entries, this`cells, temp, batch`live
      ensures fill == 0 && batch == [] && accepted == old(accepted) && entries == all && cells == allCells
      ensures QueuesValid(queues, all, allCells) && Views(queues) == old(Views(queues))
      ensures forall c :: c in old(batch) ==> !c.live
    {
      FreeBatch(temp, fill, batch, this, queues, all, allCells);
      Note(0, [], accepted, all, allCells);
    }

    /** Takes a copy of the record; a full batch is flushed first. */
    method QueueRecord(r: HostRecord) returns (ok: bool)
      requires Valid()
      modifies this`fill, this`batch, this`accepted, this`entries, this`cells, temp, queues, entries, batch`live
      ensures Valid() && ok == started && fresh(entries - old(entries))
      ensures forall i :: 0 <= i < |batch| ==> batch[i] in old(batch) || fresh(batch[i])
      ensures !ok ==> View() == old(View())
      ensures ok ==>
        && Relay.Runs(old(View()), Relay.QueueSteps(old(View()), r))
        && View() == Relay.Exec(old(View()), Relay.QueueSteps(old(View()), r))
      decreases fill
    {
      if !started {
        return false;
      }
      ghost var before := View();
      if fill >= Relay.BATCH_LENGTH {
        Relay.QueueFull(before, r);
        Flush();
        ok := QueueRecord(r);
        return;
      }
      Relay.QueueRun(before, r);
      Push(r);
      ok := true;
    }

    method Push(r: HostRecord)
      requires Valid() && started && fill < Relay.BATCH_LENGTH
      modifies this`fill, this`batch, this`accepted, this`entries, this`cells, temp
      ensures Valid() && View() == Relay.Next(old(View()), Relay.Accept(r)) && entries == old(entries)
      ensures forall i :: 0 <= i < |batch| ==> batch[i] in old(batch) || fresh(batch[i])
    {
      var cell := NewCell(temp, fill, r, this, batch);
      assert QueuesValid(queues, entries, cells) && Views(queues) == old(Views(queues));
      Note(fill + 1, batch + [cell], accepted + [r], entries, cells);
      assert Q.DataOf(batch) == old(Q.DataOf(batch)) + [r];
    }

    /** The relay decision of one action call: only the NEW of a local record is passed on. */
    method DoAction(r: HostRecord, isNew: bool, informs: bool)
      requires Valid()
      modifies this`fill, this`batch, this`accepted, this`entries, this`cells, temp, queues, entries, batch`live
      ensures Valid() && fresh(entries - old(entries))
      ensures forall i :: 0 <= i < |batch| ==> batch[i] in old(batch) || fresh(batch[i])
      ensures if isNew && informs && started && r.origin == LOCALHOST then
          && Relay.Runs(old(View()), Relay.QueueSteps(old(View()), r))
          && View() == Relay.Exec(old(View()), Relay.QueueSteps(old(View()), r))
        else View() == old(View())
    {
      if isNew && informs && r.origin == LOCALHOST {
        var ok := QueueRecord(r);
      }
    }
  }
}
