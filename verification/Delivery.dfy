/** Detections do get through: from any reachable network there is a run that takes a hit to a peer's table. */
module Delivery {
  import opened Base
  import HostTable
  import L = Lifecycle
  import R = Relay
  import N = Network
  import A = Agent

  // ---- a worker that sends all it has ----

  ghost predicate CanWork(ag: N.Agent, q: nat) {
    q < |ag.relay.queues| == |ag.links| && R.QueueInv(ag.relay.queues[q])
  }

  /** In flight, in hand and linked, in the order in which it will be sent. */
  function Ahead(ag: N.Agent, q: nat): seq<HostRecord>
    requires q < |ag.relay.queues| == |ag.links|
  {
    ag.links[q].wire + ag.relay.queues[q].hand + ag.relay.queues[q].list
  }

  /** Only the one queue and the one link differ, and the link only by what is in flight. */
  ghost predicate OnlyQueue(ag: N.Agent, t: N.Agent, q: nat)
    requires q < |ag.relay.queues| == |ag.links|
  {
    && |t.relay.queues| == |t.links| == |ag.links|
    && t == ag.(relay := ag.relay.(queues := ag.relay.queues[q := t.relay.queues[q]]),
                links := ag.links[q := ag.links[q].(wire := t.links[q].wire)])
  }

  lemma OneWorkStep(ag: N.Agent, q: nat)
    requires CanWork(ag, q) && (ag.relay.queues[q].hand != [] || ag.relay.queues[q].list != [])
    ensures var st := R.WorkStep(ag.relay.queues[q], q);
      && R.Enabled(ag.relay, st) && !st.Accept?
      && OnlyQueue(ag, N.Moved(ag, st), q) && CanWork(N.Moved(ag, st), q)
      && Ahead(N.Moved(ag, st), q) == Ahead(ag, q)
      && R.Rank(N.Moved(ag, st).relay.queues[q]) < R.Rank(ag.relay.queues[q])
  {
    var p, st := ag.relay.queues[q], R.WorkStep(ag.relay.queues[q], q);
    var t := N.Moved(ag, st);
    if p.hand != [] {
      assert p.hand == [p.hand[0]] + p.hand[1..];
      assert t.relay.queues[q] == R.Settled(p, true) && t.links[q] == N.Sending(ag.links[q], p.hand[0]);
    } else if p.pc == R.Busy {
      assert t.relay.queues[q] == p.(pc := R.Ready);
    } else {
      assert t.relay.queues[q] == R.Checked(p);
    }
  }

  lemma {:induction false} DrainOut(net: N.Net, a: nat, q: nat) returns (steps: seq<N.Step>, ag: N.Agent)
    requires a < |net| && CanWork(net[a], q)
    ensures A.LeadsTo(net, steps, a, ag) && OnlyQueue(net[a], ag, q)
    ensures ag.links[q].wire == Ahead(net[a], q)
    decreases R.Rank(net[a].relay.queues[q])
  {
    ag := net[a];
    if ag.relay.queues[q].hand == [] && ag.relay.queues[q].list == [] {
      steps := [];
      assert net[a := ag] == net && ag.links[q].wire + [] + [] == ag.links[q].wire;
      return;
    }
    var st := R.WorkStep(ag.relay.queues[q], q);
    var moved := N.Moved(ag, st);
    OneWorkStep(ag, q);
    var next := net[a := moved];
    assert N.Enabled(net, N.Inside(a, st)) && N.Next(net, N.Inside(a, st)) == next;
    N.ExecOne(net, N.Inside(a, st));
    steps, ag := DrainOut(next, a, q);
    A.LeadsOn(net, [N.Inside(a, st)], a, moved, steps, ag);
    steps := [N.Inside(a, st)] + steps;
  }

  // ---- from a detection to the wire ----

  predicate EndsWith(rs: seq<HostRecord>, r: HostRecord) {
    rs != [] && rs[|rs| - 1] == r
  }

  lemma QueuedLast(s: R.State, r: HostRecord)
    requires A.Calm(s)
    ensures R.Runs(s, R.QueueSteps(s, r))
    ensures var t := R.Exec(s, R.QueueSteps(s, r)); A.Calm(t) && EndsWith(t.batch, r) && |t.queues| == |s.queues|
  {
    R.QueueRun(s, r);
    if |s.batch| == R.BATCH_LENGTH {
      R.FlushRun(s);
    }
  }

  lemma FlushedLast(s: R.State, q: nat)
    requires A.Calm(s) && s.batch != [] && q < |s.queues|
    ensures R.Runs(s, R.FlushSteps(|s.queues|))
    ensures var t := R.Exec(s, R.FlushSteps(|s.queues|));
      |t.queues| == |s.queues| && t.queues[q] == R.Appended(s.queues[q], s.batch)
  {
    R.FlushRun(s);
  }

  /** Where a detection is after the visit, a flush and the worker's round: last in flight, and last sent. */
  lemma ToTheWire(net: N.Net, a: nat, q: nat, ip: Name, now: int) returns (steps: seq<N.Step>, ag: N.Agent)
    requires N.Inv(net) && a < |net| && q < |net[a].peers| && !net[a].relay.flushing
    requires N.Relays(net[a], ip) && L.Enabled(net[a].life, L.Action(ip, now)) && now <= INT64_MAX
    ensures A.LeadsTo(net, steps, a, ag) && N.Inv(net[a := ag])
    ensures ag.life == L.Next(net[a].life, L.Action(ip, now)) && ag.peers == net[a].peers
    ensures q < |ag.links| && EndsWith(ag.links[q].wire, net[a].life.table[ip])
  {
    var r := net[a].life.table[ip];
    assert N.Sound(net[a]);
    A.VisitRun(net, a, ip, now);
    QueuedLast(net[a].relay, r);
    var visited := A.VisitedAgent(net[a], ip, now);
    steps := A.VisitSteps(net[a], a, ip, now);
    N.RunKeepsInv(net, steps);
    var more;
    more, ag := FlushAndSend(net[a := visited], a, q, r);
    A.LeadsOn(net, steps, a, visited, more, ag);
    steps := steps + more;
    N.RunKeepsInv(net, steps);
  }

  lemma FlushAndSend(net: N.Net, a: nat, q: nat, r: HostRecord) returns (steps: seq<N.Step>, ag: N.Agent)
    requires N.Inv(net) && a < |net| && q < |net[a].peers|
    requires A.Calm(net[a].relay) && EndsWith(net[a].relay.batch, r)
    ensures A.LeadsTo(net, steps, a, ag)
    ensures ag.life == net[a].life && ag.peers == net[a].peers
    ensures q < |ag.links| && EndsWith(ag.links[q].wire, r)
  {
    var ag0 := net[a];
    assert N.Sound(ag0);
    A.FlushInside(net, a);
    FlushedLast(ag0.relay, q);
    var flush := R.FlushSteps(|ag0.relay.queues|);
    var flushed := ag0.(relay := R.Exec(ag0.relay, flush));
    steps := A.InsideSteps(a, flush);
    N.RunKeepsInv(net, steps);
    assert N.Sound(net[a := flushed][a]);
    var more;
    more, ag := DrainOut(net[a := flushed], a, q);
    A.LeadsOn(net, steps, a, flushed, more, ag);
    steps := steps + more;
    LastAhead(flushed, q, ag0.relay.queues[q].list, ag0.relay.batch, r);
  }

  lemma LastAhead(ag: N.Agent, q: nat, list: seq<HostRecord>, batch: seq<HostRecord>, r: HostRecord)
    requires q < |ag.relay.queues| == |ag.links| && ag.relay.queues[q].list == list + batch && EndsWith(batch, r)
    ensures EndsWith(Ahead(ag, q), r)
  {
  }

  // ---- from the wire to the peer's table ----

  /** The peer can take a record now, under the host name it sees. */
  ghost predicate Takes(ag: N.Agent, host: Name, now: int) {
    !ag.life.stopped && ag.life.clock <= now <= INT64_MAX && host != LOCALHOST && 0 !in host
  }

  lemma FromTheWire(net: N.Net, a: nat, q: nat, r: HostRecord, host: Name, now: int) returns (step: N.Step)
    requires N.Inv(net) && a < |net| && q < |net[a].links| && q < |net[a].peers| && net[a].peers[q] < |net|
    requires EndsWith(net[a].links[q].wire, r) && Takes(net[net[a].peers[q]], host, now)
    ensures N.Enabled(net, step) && |N.Next(net, step)| == |net|
    ensures var b := net[a].peers[q]; var hr := r.(remove := 0, processed := 0, origin := Truncated(host));
      r.ipaddr !in net[b].life.table ==> N.Next(net, step)[b].life.table == net[b].life.table[r.ipaddr := hr]
  {
    var k := |net[a].links[q].wire| - 1;
    step := N.Deliver(a, q, k, host, now, false);
    N.ReceiverAssertion(net, a, q, k, host, now);
    assert N.Enabled(net, step);
    N.ArrivalExactly(net, step);
  }

  /** A local detection about to fire can be taken to any peer: its table gets exactly the record that fired. */
  lemma DetectionArrives(net: N.Net, a: nat, q: nat, ip: Name, host: Name, now: int) returns (steps: seq<N.Step>)
    requires N.Inv(net) && a < |net| && q < |net[a].peers| && !net[a].relay.flushing
    requires N.Relays(net[a], ip) && L.Enabled(net[a].life, L.Action(ip, now))
    requires net[a].peers[q] < |net| && net[a].peers[q] != a && Takes(net[net[a].peers[q]], host, now)
    requires ip !in net[net[a].peers[q]].life.table
    ensures N.Runs(net, steps) && |N.Exec(net, steps)| == |net|
    ensures var b := net[a].peers[q];
      var hr := net[a].life.table[ip].(remove := 0, processed := 0, origin := Truncated(host));
      N.Exec(net, steps)[b].life.table == net[b].life.table[ip := hr]
  {
    var r := net[a].life.table[ip];
    assert N.Sound(net[a]) && L.Inv(net[a].life, ip);
    assert r.ipaddr == ip;
    var ag;
    steps, ag := ToTheWire(net, a, q, ip, now);
    var mid := net[a := ag];
    var step := FromTheWire(mid, a, q, r, host, now);
    N.ExecOne(mid, step);
    N.ExecConcat(net, steps, [step]);
    steps := steps + [step];
  }

  // ---- from hits to a detection ----

  /** n hits on a new IP at one moment. */
  lemma {:induction false} HitsInARow(net: N.Net, a: nat, ip: Name, now: int, n: nat)
    returns (steps: seq<N.Step>, life: L.State)
    requires a < |net| && net[a].life.cfg.Sane() && !net[a].life.stopped
    requires IsAddress(ip) && ip !in net[a].life.table
    requires net[a].life.clock <= now <= INT64_MAX && 1 <= n <= INT32_MAX
    ensures A.LeadsTo(net, steps, a, net[a].(life := life))
    ensures var cfg := net[a].life.cfg;
      life.table == net[a].life.table[ip :=
        HostRecord(LOCALHOST, ip, now, if n == 1 then 0 else now, cfg.purgeAfter, cfg.timeInterval, n,
                   cfg.actionThreshold, 0, 0)]
    ensures life.cfg == net[a].life.cfg && life.clock == now && !life.stopped
    decreases n
  {
    var hit := L.LocalHit(ip, now);
    if n == 1 {
      life := L.Next(net[a].life, hit);
      steps := [N.Local(a, hit)];
      N.ExecOne(net, steps[0]);
    } else {
      var before, some := HitsInARow(net, a, ip, now, n - 1);
      var ag := net[a].(life := some);
      life := L.Next(some, hit);
      N.ExecOne(net[a := ag], N.Local(a, hit));
      A.LeadsOn(net, before, a, ag, [N.Local(a, hit)], ag.(life := life));
      steps := before + [N.Local(a, hit)];
    }
  }

  /**
   * From every reachable network there is a run in which a threshold of hits at one agent puts, into the table
   * of any peer of it, the record that the agent then has, under the name by which the peer knows the agent.
   */
  lemma HitsReachPeer(net: N.Net, a: nat, q: nat, ip: Name, host: Name, now: int) returns (steps: seq<N.Step>)
    requires N.Reachable(net) && a < |net| && q < |net[a].peers|
    requires net[a].started && !net[a].relay.flushing && !net[a].life.stopped && net[a].life.clock <= now
    requires IsAddress(ip) && ip !in net[a].life.table
    requires net[a].peers[q] < |net| && net[a].peers[q] != a && Takes(net[net[a].peers[q]], host, now)
    requires ip !in net[net[a].peers[q]].life.table
    ensures N.Runs(net, steps) && |N.Exec(net, steps)| == |net|
    ensures var b, cfg := net[a].peers[q], net[a].life.cfg;
      N.Exec(net, steps)[b].life.table == net[b].life.table[ip :=
        HostRecord(Truncated(host), ip, now, if cfg.actionThreshold == 1 then 0 else now, cfg.purgeAfter,
                   cfg.timeInterval, cfg.actionThreshold, cfg.actionThreshold, 0, 0)]
  {
    N.ReachableInv(net);
    assert N.Sound(net[a]) && L.Inv(net[a].life, ip);
    var life;
    steps, life := HitsInARow(net, a, ip, now, net[a].life.cfg.actionThreshold);
    N.RunKeepsInv(net, steps);
    var hit := net[a := net[a].(life := life)];
    var more := DetectionArrives(hit, a, q, ip, host, now);
    N.ExecConcat(net, steps, more);
    steps := steps + more;
  }
}
