/** One agent's table and client together: what its action thread does in a round is a run of the network. */
module Agent {
  import opened Base
  import HostTable
  import L = Lifecycle
  import R = Relay
  import N = Network
  import V = RecordVector
  import D = Daemon
  import C = Client

  // ---- one visit as steps of the network ----

  function InsideSteps(a: nat, steps: seq<R.Step>): seq<N.Step> {
    seq(|steps|, i requires 0 <= i < |steps| => N.Inside(a, steps[i]))
  }

  predicate OffWire(steps: seq<R.Step>) {
    forall i :: 0 <= i < |steps| ==> !steps[i].Accept? && !steps[i].Settle?
  }

  lemma {:induction false} InsideRun(net: N.Net, a: nat, steps: seq<R.Step>)
    requires a < |net| && R.Runs(net[a].relay, steps) && OffWire(steps)
    ensures N.Runs(net, InsideSteps(a, steps))
    ensures N.Exec(net, InsideSteps(a, steps)) == net[a := net[a].(relay := R.Exec(net[a].relay, steps))]
    decreases |steps|
  {
    if steps == [] {
      assert net[a := net[a]] == net;
    } else {
      var next := net[a := net[a].(relay := R.Next(net[a].relay, steps[0]))];
      assert N.Next(net, N.Inside(a, steps[0])) == next;
      InsideRun(next, a, steps[1..]);
      assert InsideSteps(a, steps)[1..] == InsideSteps(a, steps[1..]);
      var end := next[a].(relay := R.Exec(next[a].relay, steps[1..]));
      assert next[a := end] == net[a := end];
    }
  }

  lemma FlushInside(net: N.Net, a: nat)
    requires a < |net| && !net[a].relay.flushing && net[a].relay.served == 0 && net[a].relay.batch != []
    ensures var flush := R.FlushSteps(|net[a].relay.queues|);
      && R.Runs(net[a].relay, flush)
      && N.Runs(net, InsideSteps(a, flush))
      && N.Exec(net, InsideSteps(a, flush)) == net[a := net[a].(relay := R.Exec(net[a].relay, flush))]
  {
    R.FlushRun(net[a].relay);
    InsideRun(net, a, R.FlushSteps(|net[a].relay.queues|));
  }

  /** The action thread's visit to one record: a full batch is flushed before the detection is taken. */
  function VisitSteps(ag: N.Agent, a: nat, ip: Name, now: int): seq<N.Step> {
    if N.Relays(ag, ip) && |ag.relay.batch| >= R.BATCH_LENGTH
    then InsideSteps(a, R.FlushSteps(|ag.relay.queues|)) + [N.Act(a, ip, now)]
    else [N.Act(a, ip, now)]
  }

  ghost predicate Calm(s: R.State) {
    !s.flushing && s.served == 0 && |s.batch| <= R.BATCH_LENGTH
  }

  /** The agent after the visit. */
  function VisitedAgent(ag: N.Agent, ip: Name, now: int): N.Agent
    requires L.Enabled(ag.life, L.Action(ip, now))
    requires R.Runs(ag.relay, R.QueueSteps(ag.relay, ag.life.table[ip]))
  {
    ag.(life := L.Next(ag.life, L.Action(ip, now)),
        relay := if N.Relays(ag, ip) then R.Exec(ag.relay, R.QueueSteps(ag.relay, ag.life.table[ip])) else ag.relay)
  }

  lemma FullVisit(net: N.Net, a: nat, ip: Name, now: int)
    requires a < |net| && L.Enabled(net[a].life, L.Action(ip, now)) && now <= INT64_MAX && Calm(net[a].relay)
    requires |net[a].relay.batch| == R.BATCH_LENGTH && N.Relays(net[a], ip)
    requires R.Runs(net[a].relay, R.QueueSteps(net[a].relay, net[a].life.table[ip]))
    ensures var flush := InsideSteps(a, R.FlushSteps(|net[a].relay.queues|)); var act := N.Act(a, ip, now);
      && N.Runs(net, flush) && N.Enabled(N.Exec(net, flush), act)
      && N.Next(N.Exec(net, flush), act) == net[a := VisitedAgent(net[a], ip, now)]
  {
    var ag := net[a];
    FlushInside(net, a);
    R.QueueRun(ag.relay, ag.life.table[ip]);
    var mid := ag.(relay := R.Exec(ag.relay, R.FlushSteps(|ag.relay.queues|)));
    assert N.Relays(mid, ip) && N.Acted(mid, ip, now) == VisitedAgent(ag, ip, now);
    assert net[a := mid][a := VisitedAgent(ag, ip, now)] == net[a := VisitedAgent(ag, ip, now)];
  }

  lemma VisitRun(net: N.Net, a: nat, ip: Name, now: int)
    requires a < |net| && L.Enabled(net[a].life, L.Action(ip, now)) && now <= INT64_MAX && Calm(net[a].relay)
    ensures R.Runs(net[a].relay, R.QueueSteps(net[a].relay, net[a].life.table[ip]))
    ensures N.Runs(net, VisitSteps(net[a], a, ip, now))
    ensures N.Exec(net, VisitSteps(net[a], a, ip, now)) == net[a := VisitedAgent(net[a], ip, now)]
  {
    var ag, act := net[a], N.Act(a, ip, now);
    R.QueueRun(ag.relay, ag.life.table[ip]);
    if N.Relays(ag, ip) && |ag.relay.batch| >= R.BATCH_LENGTH {
      FullVisit(net, a, ip, now);
      var flush := InsideSteps(a, R.FlushSteps(|ag.relay.queues|));
      N.ExecOne(N.Exec(net, flush), act);
      N.ExecConcat(net, flush, [act]);
    } else {
      assert N.Acted(ag, ip, now) == VisitedAgent(ag, ip, now);
      N.ExecOne(net, act);
    }
  }

  // ---- a whole round ----

  /** The run ends in the same network but for one agent. */
  ghost predicate LeadsTo(net: N.Net, steps: seq<N.Step>, a: nat, ag: N.Agent) {
    a < |net| && N.Runs(net, steps) && N.Exec(net, steps) == net[a := ag]
  }

  lemma LeadsOn(net: N.Net, steps: seq<N.Step>, a: nat, ag: N.Agent, more: seq<N.Step>, end: N.Agent)
    requires LeadsTo(net, steps, a, ag) && LeadsTo(net[a := ag], more, a, end)
    ensures LeadsTo(net, steps + more, a, end)
  {
    N.ExecConcat(net, steps, more);
    assert net[a := ag][a := end] == net[a := end];
  }

  /** What the lifecycle is after the first k visits of a pass. */
  ghost predicate After(s: L.State, keys: seq<Name>, clock: nat -> int, k: nat, t: L.State) {
    && k <= |keys| && L.Runs(s, D.ActionSteps(keys[..k], clock))
    && t == L.Exec(s, D.ActionSteps(keys[..k], clock))
  }

  /** Up to its k-th visit the action pass has not touched the k-th record. */
  lemma PassPrefix(s: L.State, keys: seq<Name>, clock: nat -> int, k: nat, t: L.State)
    requires !s.stopped && V.Distinct(keys) && k < |keys| && forall i :: 0 <= i < |keys| ==> keys[i] in s.table
    requires s.clock <= clock(0) && D.Monotone(clock) && After(s, keys, clock, k, t)
    ensures L.Enabled(t, L.Action(keys[k], clock(k))) && t.table[keys[k]] == s.table[keys[k]]
    ensures After(s, keys, clock, k + 1, L.Next(t, L.Action(keys[k], clock(k))))
  {
    var before := keys[..k];
    D.ActionPassRuns(s, before, clock);
    assert keys[k] !in before;
    V.VisitedOther(s.table, before, D.ActionCallback(clock), keys[k]);
    D.ExecSnoc(s, D.ActionSteps(before, clock), L.Action(keys[k], clock(k)));
    assert D.ActionSteps(keys[..k + 1], clock) == D.ActionSteps(before, clock) + [L.Action(keys[k], clock(k))];
  }

  /** The detections of a pass that are the agent's own. */
  function OwnFired(seen: seq<HostRecord>): seq<HostRecord> {
    if seen == [] then [] else
      var last, before := seen[|seen| - 1], OwnFired(seen[..|seen| - 1]);
      if HostTable.Fires(last) && last.origin == LOCALHOST then before + [last] else before
  }

  function Taken(accepted: seq<HostRecord>, relaying: bool, seen: seq<HostRecord>): seq<HostRecord> {
    if relaying then accepted + OwnFired(seen) else accepted
  }

  lemma TakenNext(accepted: seq<HostRecord>, relaying: bool, seen: seq<HostRecord>, k: nat)
    requires k < |seen|
    ensures Taken(accepted, relaying, seen[..k + 1]) ==
      if relaying && HostTable.Fires(seen[k]) && seen[k].origin == LOCALHOST
      then Taken(accepted, relaying, seen[..k]) + [seen[k]] else Taken(accepted, relaying, seen[..k])
  {
    assert seen[..k + 1][..k] == seen[..k];
  }

  /** The flush at the end of a round. */
  function FinalSteps(ag: N.Agent, a: nat): seq<N.Step> {
    if ag.started && ag.relay.batch != [] then InsideSteps(a, R.FlushSteps(|ag.relay.queues|)) else []
  }

  function Flushed(ag: N.Agent): N.Agent
    requires Calm(ag.relay)
  {
    if ag.started then ag.(relay := R.Flushed(ag.relay)) else ag
  }

  lemma FinalRun(net: N.Net, a: nat)
    requires a < |net| && Calm(net[a].relay)
    ensures LeadsTo(net, FinalSteps(net[a], a), a, Flushed(net[a]))
    ensures Flushed(net[a]).relay.accepted == net[a].relay.accepted
  {
    var ag := net[a];
    if ag.started && ag.relay.batch != [] {
      FlushInside(net, a);
      R.FlushRun(ag.relay);
    } else {
      assert net[a := ag] == net;
    }
  }

  /** With nothing left in the batch, every queue has been given all that was accepted. */
  lemma AllGiven(s: R.State)
    requires R.Inv(s) && s.batch == []
    ensures forall q :: 0 <= q < |s.queues| ==> R.Ledger(s.queues[q], []) == s.accepted
  {
    forall q | 0 <= q < |s.queues|
      ensures R.Ledger(s.queues[q], []) == s.accepted
    {
      assert R.Ledger(s.queues[q], R.Owed(s, q)) == s.accepted;
    }
  }

  class Agent {
    const daemon: D.Daemon
    const client: C.Client
    const informs: bool
    const peers: seq<nat>
    ghost var links: seq<N.Link>
    ghost var missed: nat

    ghost predicate Valid()
      reads this, daemon, daemon.vector
      reads client, client.temp, client.batch, client.queues, client.entries, client.cells
    {
      daemon.Valid() && client.Valid()
    }

    /** The agent with a given lifecycle state in place of its own. */
    ghost function With(life: L.State): N.Agent
      reads this, client, client.queues
    {
      N.Agent(life, client.View(), informs, client.started, peers, links, missed)
    }

    ghost function View(): N.Agent
      reads this, daemon, client, client.queues
    {
      With(daemon.state)
    }

    /** A daemon before its client is started. */
    constructor (cfg: Config, now: int, informs: bool, agents: seq<nat>)
      requires cfg.Sane() && 0 < now
      ensures Valid() && View().life == L.Init(cfg, now) && View().relay == R.Init(|peers|)
      ensures peers <= agents && |peers| == (if |agents| < C.MAX_QUEUES then |agents| else C.MAX_QUEUES)
      ensures this.informs == informs && !View().started && missed == 0
      ensures links == seq(|peers|, i => N.Link([], [], []))
    {
      daemon := new D.Daemon(cfg, now);
      client := new C.Client(|agents|);
      this.informs := informs;
      peers := if |agents| < C.MAX_QUEUES then agents else agents[..C.MAX_QUEUES];
      links := seq(if |agents| < C.MAX_QUEUES then |agents| else C.MAX_QUEUES, i => N.Link([], [], []));
      missed := 0;
    }

    /** main opens the client some time after the threads have started. */
    method Start(ghost net: N.Net, ghost a: nat)
      requires Valid() && informs && !client.started && a < |net| && net[a] == View()
      modifies this`missed, client
      ensures Valid() && N.Enabled(net, N.StartClient(a)) && N.Next(net, N.StartClient(a)) == net[a := View()]
    {
      client.Start();
      missed := |N.LocalNews(daemon.state.log)|;
    }

    /** One callback: a record that fires is passed to the client. */
    method VisitOne(r: HostRecord, ghost life: L.State, ghost ip: Name, ghost now: int, ghost net: N.Net, ghost a: nat)
      requires client.Valid() && L.Enabled(life, L.Action(ip, now)) && now <= INT64_MAX && r == life.table[ip]
      requires a < |net| && net[a] == With(life)
      modifies client, client.temp, client.queues, client.entries, client.batch
      ensures client.Valid() && client.started == old(client.started)
      ensures fresh(client.entries - old(client.entries)) && client.queues == old(client.queues)
      ensures forall i :: 0 <= i < |client.batch| ==> client.batch[i] in old(client.batch) || fresh(client.batch[i])
      ensures LeadsTo(net, VisitSteps(net[a], a, ip, now), a, With(L.Next(life, L.Action(ip, now))))
      ensures client.accepted ==
        if informs && client.started && HostTable.Fires(r) && r.origin == LOCALHOST
        then old(client.accepted) + [r] else old(client.accepted)
    {
      ghost var before := client.View();
      R.QueueRun(before, r);
      VisitRun(net, a, ip, now);
      if HostTable.Fires(r) {
        client.DoAction(r, true, informs);
      }
    }

    /** The k-th callback of a pass. */
    method VisitNext(visited: seq<Name>, seen: seq<HostRecord>, k: nat, ghost clock: nat -> int, ghost life: L.State,
                     ghost net: N.Net, ghost a: nat, ghost steps: seq<N.Step>, ghost now: L.State)
      returns (ghost steps': seq<N.Step>, ghost now': L.State)
      requires client.Valid() && !life.stopped && V.Distinct(visited) && V.Shows(life.table, visited, seen)
      requires life.clock <= clock(0) && D.Monotone(clock) && k < |visited| && clock(k) <= INT64_MAX
      requires LeadsTo(net, steps, a, With(now)) && After(life, visited, clock, k, now)
      modifies client, client.temp, client.queues, client.entries, client.batch
      ensures client.Valid() && client.started == old(client.started)
      ensures fresh(client.entries - old(client.entries)) && client.queues == old(client.queues)
      ensures forall i :: 0 <= i < |client.batch| ==> client.batch[i] in old(client.batch) || fresh(client.batch[i])
      ensures LeadsTo(net, steps', a, With(now')) && After(life, visited, clock, k + 1, now')
      ensures client.accepted ==
        if informs && client.started && HostTable.Fires(seen[k]) && seen[k].origin == LOCALHOST
        then old(client.accepted) + [seen[k]] else old(client.accepted)
    {
      PassPrefix(life, visited, clock, k, now);
      ghost var here := With(now);
      now' := L.Next(now, L.Action(visited[k], clock(k)));
      VisitOne(seen[k], now, visited[k], clock(k), net[a := here], a);
      ghost var more := VisitSteps(here, a, visited[k], clock(k));
      LeadsOn(net, steps, a, here, more, With(now'));
      steps' := steps + more;
    }

    /** The callbacks of a whole pass from the k-th on, one after the other. */
    method RelayFrom(k: nat, visited: seq<Name>, seen: seq<HostRecord>, ghost clock: nat -> int, ghost life: L.State,
                     ghost net: N.Net, ghost a: nat, ghost done: seq<N.Step>, ghost here: L.State,
                     ghost was: seq<HostRecord>, ghost relaying: bool)
      returns (ghost steps: seq<N.Step>, ghost now: L.State)
      requires client.Valid() && !life.stopped && V.Distinct(visited) && V.Shows(life.table, visited, seen)
      requires life.clock <= clock(0) && D.Monotone(clock) && forall k: nat :: clock(k) <= INT64_MAX
      requires LeadsTo(net, done, a, With(here)) && After(life, visited, clock, k, here)
      requires relaying == (informs && client.started) && client.accepted == Taken(was, relaying, seen[..k])
      modifies client, client.temp, client.queues, client.entries, client.batch
      ensures client.Valid() && client.started == old(client.started)
      ensures fresh(client.entries - old(client.entries)) && client.queues == old(client.queues)
      ensures forall i :: 0 <= i < |client.batch| ==> client.batch[i] in old(client.batch) || fresh(client.batch[i])
      ensures LeadsTo(net, steps, a, With(now)) && After(life, visited, clock, |visited|, now)
      ensures client.accepted == Taken(was, relaying, seen)
      decreases |visited| - k
    {
      if k == |visited| {
        assert seen[..k] == seen;
        return done, here;
      }
      TakenNext(was, relaying, seen, k);
      steps, now := VisitNext(visited, seen, k, clock, life, net, a, done, here);
      steps, now := RelayFrom(k + 1, visited, seen, clock, life, net, a, steps, now, was, relaying);
    }

    /** The flush at the end of a round; before the start it does nothing. */
    method FinalFlush(ghost life: L.State, ghost net: N.Net, ghost a: nat) returns (ghost steps: seq<N.Step>)
      requires client.Valid() && a < |net| && net[a] == With(life)
      modifies client, client.temp, client.queues, client.entries, client.batch
      ensures client.Valid() && client.started == old(client.started) && client.accepted == old(client.accepted)
      ensures LeadsTo(net, steps, a, With(life)) && (client.started ==> client.batch == [])
    {
      ghost var end := Flushed(net[a]);
      FinalRun(net, a);
      steps := FinalSteps(net[a], a);
      client.Flush();
      assert With(life) == end;
    }

    /** The client's part of a round. */
    method ClientRound(visited: seq<Name>, seen: seq<HostRecord>, ghost clock: nat -> int, ghost life: L.State,
                       ghost net: N.Net, ghost a: nat) returns (ghost steps: seq<N.Step>, ghost now: L.State)
      requires client.Valid() && !life.stopped && V.Distinct(visited) && V.Shows(life.table, visited, seen)
      requires life.clock <= clock(0) && D.Monotone(clock) && forall k: nat :: clock(k) <= INT64_MAX
      requires a < |net| && net[a] == With(life)
      modifies client, client.temp, client.queues, client.entries, client.batch
      ensures client.Valid() && client.started == old(client.started)
      ensures LeadsTo(net, steps, a, With(now)) && After(life, visited, clock, |visited|, now)
      ensures client.accepted == Taken(old(client.accepted), informs && client.started, seen)
      ensures informs && client.started ==> client.batch == []
    {
      assert visited[..0] == [] && seen[..0] == [] && net[a := With(life)] == net;
      ghost var was, relaying := client.accepted, informs && client.started;
      steps, now := RelayFrom(0, visited, seen, clock, life, net, a, [], life, was, relaying);
      if informs {
        ghost var here := With(now);
        ghost var last := FinalFlush(now, net[a := here], a);
        LeadsOn(net, steps, a, here, last, With(now));
        steps := steps + last;
      }
    }

    /**
     * One round of the action thread is a run of this agent in any network it is part of. However often the
     * batch fills up on the way, afterwards every peer's queue has been given exactly what the agent itself
     * detected, in order and once each.
     */
    method ActionRound(clock: nat -> int, ghost net: N.Net, ghost a: nat)
      returns (visited: seq<Name>, seen: seq<HostRecord>, ghost steps: seq<N.Step>)
      requires Valid() && !daemon.state.stopped && a < |net| && net[a] == View()
      requires daemon.state.clock <= clock(0) && D.Monotone(clock) && forall k: nat :: clock(k) <= INT64_MAX
      modifies daemon, daemon.vector, client, client.temp, client.queues, client.entries, client.batch
      ensures Valid() && LeadsTo(net, steps, a, View())
      ensures V.Shows(old(daemon.state).table, visited, seen)
      ensures V.Distinct(visited) && forall ip :: ip in visited <==> ip in old(daemon.state).table
      ensures client.accepted == Taken(old(client.accepted), informs && client.started, seen)
      ensures N.Inv(net) && informs && client.started ==>
        forall q :: 0 <= q < |View().relay.queues| ==> R.Ledger(View().relay.queues[q], []) == client.accepted
    {
      ghost var life, now := daemon.state, daemon.state;
      visited, seen := daemon.ActionPass(clock);
      steps, now := ClientRound(visited, seen, clock, life, net, a);
      assert visited[..|visited|] == visited;
      if N.Inv(net) && informs && client.started {
        N.RunKeepsInv(net, steps);
        assert N.Sound(net[a := View()][a]);
        AllGiven(client.View());
      }
    }
  }
}
