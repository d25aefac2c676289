/** No relay storms: without new log hits, only finitely many more records move between agents. */
module RelayStorm {
  import opened Base
  import HostTable
  import L = Lifecycle
  import R = Relay
  import opened Network

  /** The local detections that may still fire. */
  ghost function Pending(t: HostTable.Table): set<Name> {
    set ip | ip in t && t[ip].origin == LOCALHOST && t[ip].processed == 0
  }

  /** What is on its way to one peer, weighted by the stages still ahead of it. */
  function LinkWeight(ag: Agent, q: nat): nat {
    if q < |ag.relay.queues| && q < |ag.links| then
      var p := ag.relay.queues[q];
      4 * |R.Owed(ag.relay, q)| + 3 * |p.list| + 2 * |p.hand| + |ag.links[q].wire|
    else 0
  }

  function LinksWeight(ag: Agent, n: nat): nat {
    if n == 0 then 0 else LinksWeight(ag, n - 1) + LinkWeight(ag, n - 1)
  }

  ghost function AgentWeight(ag: Agent): nat {
    5 * |ag.peers| * |Pending(ag.life.table)| + LinksWeight(ag, |ag.peers|)
  }

  ghost function Weight(net: Net): nat {
    if net == [] then 0 else Weight(net[..|net| - 1]) + AgentWeight(net[|net| - 1])
  }

  /** A step that brings some record a stage closer to a peer. */
  predicate IsRelay(net: Net, step: Step)
    requires Enabled(net, step)
  {
    || step.Deliver?
    || (step.Inside? && (
      || step.inner.Append?
      || step.inner.Settle?
      || (step.inner.Check? && net[step.a].relay.queues[step.inner.q].list != [])))
  }

  predicate IsHit(step: Step) {
    step.Local? && step.step.LocalHit?
  }

  // ---- sums ----

  lemma {:induction false} WeightUpdate(net: Net, a: nat, ag: Agent)
    requires a < |net|
    ensures Weight(net[a := ag]) + AgentWeight(net[a]) == Weight(net) + AgentWeight(ag)
  {
    var n := |net| - 1;
    if a < n {
      WeightUpdate(net[..n], a, ag);
      assert net[a := ag][..n] == net[..n][a := ag];
    } else {
      assert net[a := ag][..n] == net[..n];
    }
  }

  lemma {:induction false} LinksBelow(before: Agent, after: Agent, n: nat)
    requires forall q: nat :: q < n ==> LinkWeight(after, q) <= LinkWeight(before, q)
    ensures LinksWeight(after, n) <= LinksWeight(before, n)
  {
    if n > 0 {
      LinksBelow(before, after, n - 1);
      assert LinkWeight(after, n - 1) <= LinkWeight(before, n - 1);
    }
  }

  lemma {:induction false} LinksDrop(before: Agent, after: Agent, n: nat, one: nat)
    requires one < n && LinkWeight(after, one) < LinkWeight(before, one)
    requires forall q: nat :: q < n ==> LinkWeight(after, q) <= LinkWeight(before, q)
    ensures LinksWeight(after, n) < LinksWeight(before, n)
  {
    assert LinkWeight(after, n - 1) <= LinkWeight(before, n - 1);
    if one < n - 1 {
      LinksDrop(before, after, n - 1, one);
    } else {
      LinksBelow(before, after, n - 1);
    }
  }

  lemma {:induction false} LinksRaise(before: Agent, after: Agent, n: nat)
    requires forall q: nat :: q < n ==> LinkWeight(after, q) == LinkWeight(before, q) + 4
    ensures LinksWeight(after, n) == LinksWeight(before, n) + 4 * n
  {
    if n > 0 {
      LinksRaise(before, after, n - 1);
      assert LinkWeight(after, n - 1) == LinkWeight(before, n - 1) + 4;
    }
  }

  lemma Product(n: nat, x: nat, y: nat)
    requires x <= y
    ensures 5 * n * x <= 5 * n * y
    ensures x < y ==> 5 * n * x + 5 * n <= 5 * n * y
  {
    assert n * x <= n * y;
    if x < y {
      assert n * (x + 1) <= n * y;
    }
  }

  lemma SubsetSize(a: set<Name>, b: set<Name>)
    requires a <= b
    ensures |a| <= |b|
    ensures a != b ==> |a| < |b|
  {
    assert b == a + (b - a);
  }

  // ---- one agent's steps ----

  /** No step but a log hit creates a pending detection. */
  lemma LifePending(s: L.State, st: L.Step)
    requires L.Enabled(s, st) && !st.LocalHit?
    ensures Pending(L.Next(s, st).table) <= Pending(s.table)
  {
  }

  lemma LifeWeight(ag: Agent, st: L.Step)
    requires L.Enabled(ag.life, st) && !st.LocalHit?
    ensures AgentWeight(ag.(life := L.Next(ag.life, st))) <= AgentWeight(ag)
  {
    var t := ag.(life := L.Next(ag.life, st));
    LifePending(ag.life, st);
    SubsetSize(Pending(t.life.table), Pending(ag.life.table));
    Product(|ag.peers|, |Pending(t.life.table)|, |Pending(ag.life.table)|);
    LinksBelow(ag, t, |ag.peers|);
  }

  lemma ActWeight(ag: Agent, ip: Name, now: int)
    requires Sound(ag) && L.Enabled(ag.life, L.Action(ip, now))
    requires Relays(ag, ip) ==> R.Enabled(ag.relay, R.Accept(ag.life.table[ip]))
    ensures AgentWeight(Acted(ag, ip, now)) <= AgentWeight(ag)
  {
    var st, t := L.Action(ip, now), Acted(ag, ip, now);
    if Relays(ag, ip) {
      var x, y := Pending(t.life.table), Pending(ag.life.table);
      LifePending(ag.life, st);
      assert ip in y && ip !in x;
      SubsetSize(x, y);
      Product(|ag.peers|, |x|, |y|);
      LinksRaise(ag, t, |ag.peers|);
    } else {
      LifeWeight(ag, st);
      assert t == ag.(life := L.Next(ag.life, st));
    }
  }

  predicate Drops(ag: Agent, st: R.Step, q: nat) {
    || (st.Append? && q == ag.relay.served)
    || (st.Settle? && q == st.q)
    || (st.Check? && q == st.q && q < |ag.relay.queues| && ag.relay.queues[q].list != [])
  }

  predicate Shaped(ag: Agent) {
    |ag.relay.queues| == |ag.peers| == |ag.links|
  }

  lemma FlushLink(ag: Agent, st: R.Step, q: nat)
    requires Shaped(ag) && R.Inv(ag.relay) && q < |ag.peers|
    requires R.Enabled(ag.relay, st) && (st.BeginFlush? || st.Append? || st.EndFlush?)
    ensures LinkWeight(Moved(ag, st), q) <= LinkWeight(ag, q)
    ensures Drops(ag, st, q) ==> LinkWeight(Moved(ag, st), q) < LinkWeight(ag, q)
  {
  }

  lemma WorkerLink(ag: Agent, st: R.Step, q: nat)
    requires Shaped(ag) && R.Inv(ag.relay) && q < |ag.peers|
    requires R.Enabled(ag.relay, st) && (st.Check? || st.Wake? || st.Settle? || st.Finish?)
    ensures LinkWeight(Moved(ag, st), q) <= LinkWeight(ag, q)
    ensures Drops(ag, st, q) ==> LinkWeight(Moved(ag, st), q) < LinkWeight(ag, q)
  {
    var t, p := Moved(ag, st), ag.relay.queues[q];
    assert R.QueueInv(p);
    assert R.Owed(t.relay, q) == R.Owed(ag.relay, q);
    if q != st.q {
      assert t.relay.queues[q] == p && t.links[q].wire == ag.links[q].wire;
    } else if st.Check? {
      assert t.relay.queues[q] == R.Checked(p) && t.links[q].wire == ag.links[q].wire;
    } else if st.Settle? {
      assert t.relay.queues[q] == R.Settled(p, st.sent);
      assert |t.links[q].wire| == |ag.links[q].wire| + if st.sent then 1 else 0;
    }
  }

  lemma MovedLink(ag: Agent, st: R.Step, q: nat)
    requires Sound(ag) && R.Enabled(ag.relay, st) && !st.Accept? && q < |ag.peers|
    ensures LinkWeight(Moved(ag, st), q) <= LinkWeight(ag, q)
    ensures Drops(ag, st, q) ==> LinkWeight(Moved(ag, st), q) < LinkWeight(ag, q)
  {
    if st.BeginFlush? || st.Append? || st.EndFlush? {
      FlushLink(ag, st, q);
    } else {
      WorkerLink(ag, st, q);
    }
  }

  lemma InsideWeight(ag: Agent, st: R.Step)
    requires Sound(ag) && R.Enabled(ag.relay, st) && !st.Accept?
    ensures AgentWeight(Moved(ag, st)) <= AgentWeight(ag)
    ensures st.Append? || st.Settle? || (st.Check? && ag.relay.queues[st.q].list != []) ==>
      AgentWeight(Moved(ag, st)) < AgentWeight(ag)
  {
    var t := Moved(ag, st);
    forall q: nat | q < |ag.peers|
      ensures LinkWeight(t, q) <= LinkWeight(ag, q)
    {
      MovedLink(ag, st, q);
    }
    LinksBelow(ag, t, |ag.peers|);
    if st.Append? || st.Settle? || (st.Check? && ag.relay.queues[st.q].list != []) {
      var q := if st.Append? then ag.relay.served else st.q;
      MovedLink(ag, st, q);
      LinksDrop(ag, t, |ag.peers|, q);
    }
  }

  lemma LandedWeight(ag: Agent, q: nat, k: nat, read: bool)
    requires Sound(ag) && q < |ag.links| && k < |ag.links[q].wire|
    ensures AgentWeight(Landed(ag, q, k, read)) < AgentWeight(ag)
  {
    var t := Landed(ag, q, k, read);
    LinksBelow(ag, t, |ag.peers|);
    LinksDrop(ag, t, |ag.peers|, q);
  }

  // ---- the network ----

  lemma ReceivedWeight(net: Net, b: nat, st: L.Step)
    requires b < |net| && L.Enabled(net[b].life, st) && !st.LocalHit?
    ensures Weight(Received(net, b, st)) <= Weight(net)
  {
    LifeWeight(net[b], st);
    WeightUpdate(net, b, net[b].(life := L.Next(net[b].life, st)));
  }

  lemma LeftWeight(net: Net, a: nat, q: nat, k: nat, read: bool)
    requires Inv(net) && a < |net| && q < |net[a].links| && k < |net[a].links[q].wire|
    ensures Weight(net[a := Landed(net[a], q, k, read)]) < Weight(net)
  {
    assert Sound(net[a]);
    LandedWeight(net[a], q, k, read);
    WeightUpdate(net, a, Landed(net[a], q, k, read));
  }

  lemma DeliverWeight(net: Net, step: Step)
    requires Inv(net) && Enabled(net, step) && step.Deliver?
    ensures Weight(Next(net, step)) < Weight(net)
  {
    var ag := net[step.a];
    LeftWeight(net, step.a, step.q, step.k, true);
    if !step.excluded {
      var rest := net[step.a := Landed(ag, step.q, step.k, true)];
      ReceivedWeight(rest, ag.peers[step.q], L.RemoteAdd(Adopted(ag.links[step.q].wire[step.k], step.host), step.now));
    }
  }

  lemma InsideStepWeight(net: Net, step: Step)
    requires Inv(net) && Enabled(net, step) && step.Inside?
    ensures Weight(Next(net, step)) <= Weight(net)
    ensures IsRelay(net, step) ==> Weight(Next(net, step)) < Weight(net)
  {
    InsideWeight(net[step.a], step.inner);
    WeightUpdate(net, step.a, Moved(net[step.a], step.inner));
  }

  lemma TableStepWeight(net: Net, step: Step)
    requires Inv(net) && Enabled(net, step) && !IsHit(step) && (step.Local? || step.Act?)
    ensures Weight(Next(net, step)) <= Weight(net)
  {
    var ag := net[step.a];
    if step.Local? {
      LifeWeight(ag, step.step);
      WeightUpdate(net, step.a, ag.(life := L.Next(ag.life, step.step)));
    } else {
      ActWeight(ag, step.ip, step.now);
      WeightUpdate(net, step.a, Acted(ag, step.ip, step.now));
    }
  }

  /** Every step but a log hit keeps the weight from rising, and every relay step lowers it. */
  lemma StepWeight(net: Net, step: Step)
    requires Inv(net) && Enabled(net, step) && !IsHit(step)
    ensures Weight(Next(net, step)) <= Weight(net)
    ensures IsRelay(net, step) ==> Weight(Next(net, step)) < Weight(net)
  {
    var ag := net[step.a];
    if step.Deliver? {
      DeliverWeight(net, step);
    } else if step.Inside? {
      InsideStepWeight(net, step);
    } else if step.Lose? {
      LeftWeight(net, step.a, step.q, step.k, false);
    } else if step.StartClient? {
      var up := ag.(started := true, missed := |LocalNews(ag.life.log)|);
      LinksBelow(ag, up, |ag.peers|);
      WeightUpdate(net, step.a, up);
    } else {
      TableStepWeight(net, step);
    }
  }

  function RelayCount(net: Net, steps: seq<Step>): nat
    requires Runs(net, steps)
    decreases |steps|
  {
    if steps == [] then 0
    else (if IsRelay(net, steps[0]) then 1 else 0) + RelayCount(Next(net, steps[0]), steps[1..])
  }

  predicate Quiet(steps: seq<Step>) {
    forall i :: 0 <= i < |steps| ==> !IsHit(steps[i])
  }

  lemma {:induction false} QuietRun(net: Net, steps: seq<Step>)
    requires Inv(net) && Runs(net, steps) && Quiet(steps)
    ensures RelayCount(net, steps) + Weight(Exec(net, steps)) <= Weight(net)
    decreases |steps|
  {
    if steps != [] {
      StepKeepsInv(net, steps[0]);
      StepWeight(net, steps[0]);
      QuietRun(Next(net, steps[0]), steps[1..]);
    }
  }

  /** From any reachable state, a run without log hits relays at most as often as the state weighs. */
  lemma NoRelayStorm(net: Net, steps: seq<Step>)
    requires Reachable(net) && Runs(net, steps) && Quiet(steps)
    ensures RelayCount(net, steps) <= Weight(net)
  {
    ReachableInv(net);
    QuietRun(net, steps);
  }
}
