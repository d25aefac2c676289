/** The daemon's table operations on the slot vector are runs of the record lifecycle. */
module Daemon {
  import opened Base
  import HostTable
  import L = Lifecycle
  import V = RecordVector

  // ---- the callbacks ----

  function ActionCallback(clock: nat -> int): V.Callback {
    (k: nat, r: HostRecord) => V.Reply(HostTable.Act(r, clock(k)), false)
  }

  function MarkCallback(): V.Callback {
    (k: nat, r: HostRecord) => V.Reply(HostTable.Mark(r), false)
  }

  lemma CallbacksKeepKeys(clock: nat -> int)
    ensures V.KeepsKeys(ActionCallback(clock)) && V.KeepsKeys(MarkCallback())
  {
    forall k: nat, r: HostRecord
      ensures ActionCallback(clock)(k, r).record.ipaddr == r.ipaddr
      ensures MarkCallback()(k, r).record.ipaddr == r.ipaddr
    {
      assert HostTable.Act(r, clock(k)).ipaddr == r.ipaddr;
    }
  }

  /** The clock does not go back from one callback to the next. */
  ghost predicate Monotone(clock: nat -> int) {
    forall i: nat, j: nat :: i <= j ==> clock(i) <= clock(j)
  }

  // ---- passes as runs ----

  function ActionSteps(keys: seq<Name>, clock: nat -> int): seq<L.Step> {
    seq(|keys|, k requires 0 <= k < |keys| => L.Action(keys[k], clock(k)))
  }

  function MarkSteps(keys: seq<Name>): seq<L.Step> {
    seq(|keys|, k requires 0 <= k < |keys| => L.MarkOne(keys[k]))
  }

  function PurgeSteps(keys: seq<Name>): seq<L.Step> {
    seq(|keys|, k requires 0 <= k < |keys| => L.Purge(keys[k]))
  }

  function DestroySteps(keys: seq<Name>): seq<L.Step> {
    seq(|keys|, k requires 0 <= k < |keys| => L.Destroy(keys[k]))
  }

  lemma ExecSnoc(s: L.State, steps: seq<L.Step>, last: L.Step)
    requires L.Runs(s, steps) && L.Enabled(L.Exec(s, steps), last)
    ensures L.Runs(s, steps + [last])
    ensures L.Exec(s, steps + [last]) == L.Next(L.Exec(s, steps), last)
  {
    assert [last][1..] == [];
    L.ExecConcat(s, steps, [last]);
  }

  lemma {:induction false} ActionPassRuns(s: L.State, keys: seq<Name>, clock: nat -> int)
    requires !s.stopped && forall k :: 0 <= k < |keys| ==> keys[k] in s.table
    requires s.clock <= clock(0) && Monotone(clock)
    ensures L.Runs(s, ActionSteps(keys, clock))
    ensures var t := L.Exec(s, ActionSteps(keys, clock));
      && t.table == V.Visited(s.table, keys, ActionCallback(clock)) && t.table.Keys == s.table.Keys
      && !t.stopped && t.cfg == s.cfg && t.clock <= clock(|keys|)
  {
    if keys != [] {
      var n := |keys| - 1;
      ActionPassRuns(s, keys[..n], clock);
      ExecSnoc(s, ActionSteps(keys[..n], clock), L.Action(keys[n], clock(n)));
      assert ActionSteps(keys, clock) == ActionSteps(keys[..n], clock) + [L.Action(keys[n], clock(n))];
      assert clock(n) <= clock(n + 1);
    }
  }

  lemma {:induction false} MarkPassRuns(s: L.State, keys: seq<Name>)
    requires !s.stopped && forall k :: 0 <= k < |keys| ==> keys[k] in s.table
    ensures L.Runs(s, MarkSteps(keys))
    ensures var t := L.Exec(s, MarkSteps(keys));
      && t.table == V.Visited(s.table, keys, MarkCallback()) && t.table.Keys == s.table.Keys
      && !t.stopped && t.cfg == s.cfg && t.clock == s.clock
  {
    if keys != [] {
      var n := |keys| - 1;
      MarkPassRuns(s, keys[..n]);
      ExecSnoc(s, MarkSteps(keys[..n]), L.MarkOne(keys[n]));
      assert MarkSteps(keys) == MarkSteps(keys[..n]) + [L.MarkOne(keys[n])];
    }
  }

  lemma {:induction false} PurgeRuns(s: L.State, keys: seq<Name>)
    requires !s.stopped && V.Distinct(keys)
    requires forall k :: 0 <= k < |keys| ==> keys[k] in s.table && s.table[keys[k]].remove != 0
    ensures L.Runs(s, PurgeSteps(keys))
    ensures var t := L.Exec(s, PurgeSteps(keys));
      t.table == s.table - (set ip | ip in keys) && !t.stopped && t.cfg == s.cfg && t.clock == s.clock
  {
    if keys != [] {
      var n := |keys| - 1;
      PurgeRuns(s, keys[..n]);
      assert keys[n] !in keys[..n];
      ExecSnoc(s, PurgeSteps(keys[..n]), L.Purge(keys[n]));
      assert PurgeSteps(keys) == PurgeSteps(keys[..n]) + [L.Purge(keys[n])];
      assert (set ip | ip in keys) == (set ip | ip in keys[..n]) + {keys[n]};
    }
  }

  lemma {:induction false} DestroyRuns(s: L.State, keys: seq<Name>)
    requires s.stopped && V.Distinct(keys)
    requires forall k :: 0 <= k < |keys| ==> keys[k] in s.table
    ensures L.Runs(s, DestroySteps(keys))
    ensures var t := L.Exec(s, DestroySteps(keys));
      t.table == s.table - (set ip | ip in keys) && t.stopped
  {
    if keys != [] {
      var n := |keys| - 1;
      DestroyRuns(s, keys[..n]);
      assert keys[n] !in keys[..n];
      ExecSnoc(s, DestroySteps(keys[..n]), L.Destroy(keys[n]));
      assert DestroySteps(keys) == DestroySteps(keys[..n]) + [L.Destroy(keys[n])];
      assert (set ip | ip in keys) == (set ip | ip in keys[..n]) + {keys[n]};
    }
  }

  class Daemon {
    const vector: V.RecordVector
    ghost var state: L.State

    /** The vector holds the lifecycle's table, and the lifecycle got there by a run. */
    ghost predicate Valid()
      reads this, vector
    {
      vector.Valid() && state.table == V.Contents(vector.slots) && L.Reachable(state)
    }

    constructor (cfg: Config, now: int)
      requires cfg.Sane() && 0 < now
      ensures Valid() && fresh(vector) && state == L.Init(cfg, now)
    {
      vector := new V.RecordVector();
      state := L.Init(cfg, now);
      new;
      assert L.Runs(state, []) && state == L.Exec(state, []);
    }

    ghost method Advance(steps: seq<L.Step>)
      requires L.Runs(state, steps) && L.Reachable(state)
      modifies this
      ensures state == L.Exec(old(state), steps) && L.Reachable(state)
    {
      L.ReachableExec(state, steps);
      state := L.Exec(state, steps);
    }

    /**
     * A matched log line; the match may be longer than an address field. The hit counts for what the field
     * keeps of it, and the table stays in order exactly unless such a cut key is already taken.
     */
    method LocalHit(ip: Name, now: int, cfg: Config)
      requires Valid() && cfg == state.cfg && !state.stopped && 0 !in ip && state.clock <= now
      modifies this, vector
      ensures Valid() <==> |ip| < IPADDR_SIZE || Truncated(ip) !in old(state).table
      ensures Valid() ==> state == L.Next(old(state), L.LocalHit(Truncated(ip), now))
      ensures !Valid() ==> vector.WellShaped() && !V.Unique(vector.slots)
    {
      vector.AddIp(ip, now, cfg);
      if |ip| < IPADDR_SIZE || Truncated(ip) !in state.table {
        ghost var step := L.LocalHit(Truncated(ip), now);
        assert L.Runs(state, [step]) by { assert [step][1..] == []; }
        Advance([step]);
      }
    }

    /** A record received by a server worker. */
    method RemoteAdd(hr: HostRecord, now: int)
      requires Valid() && L.Enabled(state, L.RemoteAdd(hr, now))
      modifies this, vector
      ensures Valid() && state == L.Next(old(state), L.RemoteAdd(hr, now))
    {
      vector.AddRecord(hr, now);
      ghost var step := L.RemoteAdd(hr, now);
      assert L.Runs(state, [step]) by { assert [step][1..] == []; }
      Advance([step]);
    }

    /** One round of the action thread; `clock` gives the time each callback reads. */
    method ActionPass(clock: nat -> int) returns (visited: seq<Name>, seen: seq<HostRecord>)
      requires Valid() && !state.stopped
      requires state.clock <= clock(0) && Monotone(clock)
      modifies this, vector
      ensures Valid()
      ensures L.Runs(old(state), ActionSteps(visited, clock))
      ensures state == L.Exec(old(state), ActionSteps(visited, clock)) && V.Shows(old(state).table, visited, seen)
      ensures V.Distinct(visited) && forall ip :: ip in visited <==> ip in old(state).table
    {
      CallbacksKeepKeys(clock);
      var stopped;
      visited, seen, stopped := vector.Enumerate(ActionCallback(clock));
      ActionPassRuns(state, visited, clock);
      Advance(ActionSteps(visited, clock));
    }

    /** The signal handler's request to remove everything. */
    method MarkAll() returns (visited: seq<Name>)
      requires Valid() && !state.stopped
      modifies this, vector
      ensures Valid()
      ensures L.Runs(old(state), MarkSteps(visited)) && state == L.Exec(old(state), MarkSteps(visited))
      ensures V.Distinct(visited) && forall ip :: ip in visited <==> ip in old(state).table
    {
      CallbacksKeepKeys(k => 0);
      var seen, stopped;
      visited, seen, stopped := vector.Enumerate(MarkCallback());
      MarkPassRuns(state, visited);
      Advance(MarkSteps(visited));
    }

    /** One round of the maintenance thread. */
    method MaintenancePass() returns (removed: seq<Name>)
      requires Valid() && !state.stopped
      modifies this, vector
      ensures Valid()
      ensures L.Runs(old(state), PurgeSteps(removed)) && state == L.Exec(old(state), PurgeSteps(removed))
      ensures V.Distinct(removed) && forall ip :: ip in removed <==> ip in V.FlaggedKeys(old(state).table)
    {
      var records := vector.Maintenance();
      removed := V.Ips(records);
      assert forall k :: 0 <= k < |removed| ==> removed[k] in V.FlaggedKeys(state.table);
      PurgeRuns(state, removed);
      assert (set ip | ip in removed) == V.FlaggedKeys(state.table);
      Advance(PurgeSteps(removed));
    }

    /** The threads have stopped and the table is torn down. */
    method Shutdown() returns (handed: seq<Name>)
      requires Valid() && !state.stopped
      modifies this
      ensures L.Reachable(state) && state.stopped && state.table == map[]
      ensures forall ip :: ip in handed <==> ip in old(state).table
      ensures L.Runs(old(state), [L.Stop] + DestroySteps(handed))
      ensures state == L.Exec(old(state), [L.Stop] + DestroySteps(handed))
    {
      var records := vector.Destroy();
      handed := V.Ips(records);
      ghost var s := L.Next(state, L.Stop);
      assert L.Runs(state, [L.Stop]) && L.Exec(state, [L.Stop]) == s by { assert [L.Stop][1..] == []; }
      DestroyRuns(s, handed);
      L.ExecConcat(state, [L.Stop], DestroySteps(handed));
      assert (set ip | ip in handed) == state.table.Keys;
      Advance([L.Stop] + DestroySteps(handed));
    }
  }
}
