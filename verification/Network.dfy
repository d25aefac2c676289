/** Any number of agents that relay their detections to each other, in any topology. */
module Network {
  import opened Base
  import HostTable
  import L = Lifecycle
  import R = Relay
  import Codec

  /**
   * The way to one peer, over any number of connections: what is in flight, and as history what some worker
   * of the peer read and what was lost.
   */
  datatype Link = Link(wire: seq<HostRecord>, delivered: seq<HostRecord>, lost: seq<HostRecord>)

  /**
   * An agent: its table, its relay machinery, the agents it informs, and the link to each of them.
   * `missed` is history: the local detections made before the client was started.
   */
  datatype Agent = Agent(
    life: L.State,
    relay: R.State,
    informs: bool,
    started: bool,
    peers: seq<nat>,
    links: seq<Link>,
    missed: nat)

  type Net = seq<Agent>

  datatype Step =
    | Local(a: nat, step: L.Step)                                      // a log hit, a mark or a purge
    | StartClient(a: nat)
    | Act(a: nat, ip: Name, now: int)                                  // the action thread visits a record
    | Inside(a: nat, inner: R.Step)                                    // flush and queue workers
    | Deliver(a: nat, q: nat, k: nat, host: Name, now: int, excluded: bool)   // some worker of the peer reads it
    | Lose(a: nat, q: nat, k: nat)                                     // its connection broke

  /** A record after its journey through the wire format. */
  function Arrives(r: HostRecord): HostRecord {
    if Codec.Sendable(r) then Codec.FrameRoundTrip(r); Codec.FromRaw(Codec.Decode(Codec.Frame(r)).record) else r
  }

  lemma ArrivesIntact(r: HostRecord)
    requires Codec.Sendable(r)
    ensures Arrives(r) == r
  {
    Codec.FrameRoundTrip(r);
  }

  /** What the server worker makes of a received record before it reaches the table. */
  function Adopted(r: HostRecord, host: Name): HostRecord {
    Arrives(r).(remove := 0, processed := 0, origin := Truncated(host))
  }

  /** A detection is relayed when it fires, is local, and the client is up. */
  predicate Relays(ag: Agent, ip: Name) {
    && ip in ag.life.table && HostTable.Fires(ag.life.table[ip])
    && ag.informs && ag.life.table[ip].origin == LOCALHOST && ag.started
  }

  predicate Enabled(net: Net, step: Step) {
    step.a < |net| &&
    var ag := net[step.a];
    match step
    case Local(_, st) =>
      (st.LocalHit? || st.MarkOne? || st.Purge?) && L.Enabled(ag.life, st) && (st.LocalHit? ==> st.now <= INT64_MAX)
    case StartClient(_) => ag.informs && !ag.started
    case Act(_, ip, now) =>
      && L.Enabled(ag.life, L.Action(ip, now)) && now <= INT64_MAX
      && (Relays(ag, ip) ==> R.Enabled(ag.relay, R.Accept(ag.life.table[ip])))
    case Inside(_, st) => !st.Accept? && R.Enabled(ag.relay, st)
    case Deliver(_, q, k, host, now, excluded) =>
      && q < |ag.links| && q < |ag.peers| && k < |ag.links[q].wire| && ag.peers[q] < |net|
      && host != LOCALHOST && 0 !in host && now <= INT64_MAX
      && (!excluded ==> L.Enabled(net[ag.peers[q]].life, L.RemoteAdd(Adopted(ag.links[q].wire[k], host), now)))
    case Lose(_, q, k) => q < |ag.links| && k < |ag.links[q].wire|
  }

  function Acted(ag: Agent, ip: Name, now: int): Agent
    requires L.Enabled(ag.life, L.Action(ip, now))
    requires Relays(ag, ip) ==> R.Enabled(ag.relay, R.Accept(ag.life.table[ip]))
  {
    ag.(life := L.Next(ag.life, L.Action(ip, now)),
        relay := if Relays(ag, ip) then R.Next(ag.relay, R.Accept(ag.life.table[ip])) else ag.relay)
  }

  function Sending(l: Link, r: HostRecord): Link {
    l.(wire := l.wire + [r])
  }

  /** A queue entry that was sent is now in flight. */
  function Moved(ag: Agent, st: R.Step): Agent
    requires R.Enabled(ag.relay, st)
  {
    ag.(relay := R.Next(ag.relay, st),
        links := if st.Settle? && st.sent && st.q < |ag.links|
                 then ag.links[st.q := Sending(ag.links[st.q], ag.relay.queues[st.q].hand[0])]
                 else ag.links)
  }

  /** One record is no longer in flight: batches travel on connections of their own and overtake each other. */
  function Landed(ag: Agent, q: nat, k: nat, read: bool): Agent
    requires q < |ag.links| && k < |ag.links[q].wire|
  {
    ag.(links := ag.links[q := Left(ag.links[q], k, read)])
  }

  function Left(l: Link, k: nat, read: bool): Link
    requires k < |l.wire|
  {
    if read then l.(wire := R.Without(l.wire, k), delivered := l.delivered + [l.wire[k]])
    else l.(wire := R.Without(l.wire, k), lost := l.lost + [l.wire[k]])
  }

  function Received(net: Net, b: nat, st: L.Step): Net
    requires b < |net| && L.Enabled(net[b].life, st)
  {
    net[b := net[b].(life := L.Next(net[b].life, st))]
  }

  function Next(net: Net, step: Step): Net
    requires Enabled(net, step)
  {
    var ag := net[step.a];
    match step
    case Local(a, st) => net[a := ag.(life := L.Next(ag.life, st))]
    case StartClient(a) => net[a := ag.(started := true, missed := |LocalNews(ag.life.log)|)]
    case Act(a, ip, now) => net[a := Acted(ag, ip, now)]
    case Inside(a, st) => net[a := Moved(ag, st)]
    case Deliver(a, q, k, host, now, excluded) =>
      var r, b := ag.links[q].wire[k], ag.peers[q];
      var rest := net[a := Landed(ag, q, k, true)];
      if excluded then rest
      else Received(rest, b, L.RemoteAdd(Adopted(r, host), now))
    case Lose(a, q, k) => net[a := Landed(ag, q, k, false)]
  }

  predicate Runs(net: Net, steps: seq<Step>)
    decreases |steps|
  {
    steps == [] || (Enabled(net, steps[0]) && Runs(Next(net, steps[0]), steps[1..]))
  }

  function Exec(net: Net, steps: seq<Step>): Net
    requires Runs(net, steps)
    decreases |steps|
  {
    if steps == [] then net else Exec(Next(net, steps[0]), steps[1..])
  }

  lemma ExecCons(net: Net, step: Step, rest: seq<Step>)
    requires Enabled(net, step) && Runs(Next(net, step), rest)
    ensures Runs(net, [step] + rest) && Exec(net, [step] + rest) == Exec(Next(net, step), rest)
  {
    assert ([step] + rest)[1..] == rest;
  }

  lemma {:induction false} ExecConcat(net: Net, first: seq<Step>, second: seq<Step>)
    requires Runs(net, first) && Runs(Exec(net, first), second)
    ensures Runs(net, first + second) && Exec(net, first + second) == Exec(Exec(net, first), second)
    decreases |first|
  {
    if first == [] {
      assert first + second == second;
    } else {
      ExecConcat(Next(net, first[0]), first[1..], second);
      ExecCons(net, first[0], first[1..] + second);
      HeadFirst(first, second);
    }
  }

  lemma ExecOne(net: Net, step: Step)
    requires Enabled(net, step)
    ensures Runs(net, [step]) && Exec(net, [step]) == Next(net, step)
  {
    assert [step][1..] == [];
  }

  /** Freshly started agents with sane configurations; peers are agents of the network. */
  predicate Initial(net: Net) {
    forall a :: 0 <= a < |net| ==>
      var ag := net[a];
      && ag.life == L.Init(ag.life.cfg, ag.life.clock) && ag.life.cfg.Sane() && 0 < ag.life.clock <= INT64_MAX
      && ag.relay == R.Init(|ag.peers|) && !ag.started && ag.missed == 0
      && ag.links == seq(|ag.peers|, i => Link([], [], []))
      && forall q :: 0 <= q < |ag.peers| ==> ag.peers[q] < |net|
  }

  // ---- provenance ----

  /** The IPs of the detections fired while only the agent's own log had touched the record. */
  function LocalNews(log: seq<L.Event>): seq<Name> {
    if log == [] then [] else
      var n := |log| - 1;
      var before := LocalNews(log[..n]);
      if log[n].New? && L.Read(log[..n], log[n].ip).last.None? && L.Read(log[..n], log[n].ip).hits != []
      then before + [log[n].ip] else before
  }

  lemma LocalNewsAppend(log: seq<L.Event>, e: L.Event)
    ensures LocalNews(log + [e]) ==
      if e.New? && L.Read(log, e.ip).last.None? && L.Read(log, e.ip).hits != [] then LocalNews(log) + [e.ip]
      else LocalNews(log)
  {
    assert (log + [e])[..|log|] == log;
  }

  function Ips(rs: seq<HostRecord>): seq<Name> {
    seq(|rs|, i requires 0 <= i < |rs| => rs[i].ipaddr)
  }

  /** What may be put on the wire: a local record at or above its own positive threshold. */
  predicate Outgoing(r: HostRecord) {
    r.origin == LOCALHOST && Codec.Sendable(r) && 1 <= r.actionThreshold <= r.occurrences
  }

  predicate AllOutgoing(rs: seq<HostRecord>) {
    forall i :: 0 <= i < |rs| ==> Outgoing(rs[i])
  }

  /** What was sent is in flight, was read or was lost, each once, and what is in flight is in order. */
  ghost predicate LinkFits(l: Link, sent: seq<HostRecord>) {
    && multiset(sent) == multiset(l.wire) + multiset(l.delivered) + multiset(l.lost)
    && R.Subsequence(l.wire, sent)
  }

  ghost predicate Sound(ag: Agent) {
    && |ag.relay.queues| == |ag.peers| == |ag.links|
    && ag.life.clock <= INT64_MAX
    && (forall ip :: L.Inv(ag.life, ip))
    && R.Inv(ag.relay)
    && AllOutgoing(ag.relay.accepted)
    && (if ag.started then
          && ag.informs && ag.missed <= |LocalNews(ag.life.log)|
          && Ips(ag.relay.accepted) == LocalNews(ag.life.log)[ag.missed..]
        else ag.relay.accepted == [])
    && (forall q :: 0 <= q < |ag.links| ==> LinkFits(ag.links[q], R.SentOf(ag.relay.queues[q].settled)))
  }

  ghost predicate Inv(net: Net) {
    forall a :: 0 <= a < |net| ==> Sound(net[a]) && forall q :: 0 <= q < |net[a].peers| ==> net[a].peers[q] < |net|
  }

  // ---- one agent's steps ----

  lemma LifeKeepsSound(ag: Agent, st: L.Step)
    requires Sound(ag) && L.Enabled(ag.life, st) && !st.Action? && !st.Stop? && !st.Destroy?
    requires (st.LocalHit? || st.RemoteAdd?) ==> st.now <= INT64_MAX
    ensures Sound(ag.(life := L.Next(ag.life, st)))
  {
    var life := L.Next(ag.life, st);
    forall ip
      ensures L.Inv(life, ip)
    {
      L.StepKeepsInv(ag.life, st, ip);
    }
    match st {
      case LocalHit(ip, now) => LocalNewsAppend(ag.life.log, L.Hit(ip, now));
      case RemoteAdd(hr, now) => LocalNewsAppend(ag.life.log, L.Remote(hr.ipaddr, now, hr));
      case MarkOne(ip) => LocalNewsAppend(ag.life.log, L.Marked(ip));
      case Purge(ip) =>
        var log := if ag.life.table[ip].processed != 0 then ag.life.log + [L.Removed(ip)] else ag.life.log;
        LocalNewsAppend(ag.life.log, L.Removed(ip));
        LocalNewsAppend(log, L.Forgotten(ip));
    }
    assert LocalNews(life.log) == LocalNews(ag.life.log);
  }

  lemma LocalIsSendable(life: L.State, ip: Name)
    requires L.Inv(life, ip) && ip in life.table && life.table[ip].origin == LOCALHOST && life.clock <= INT64_MAX
    ensures Codec.Sendable(life.table[ip])
  {
    var r := life.table[ip];
    Codec.FitsMachine(r.firstseen); Codec.FitsMachine(r.lastseen);
    Codec.FitsMachine(r.purgeAfter); Codec.FitsMachine(r.timeInterval);
    Codec.FitsMachine(r.occurrences); Codec.FitsMachine(r.actionThreshold);
    Codec.FitsMachine(r.remove); Codec.FitsMachine(r.processed);
  }

  lemma ActNews(life: L.State, ip: Name, now: int)
    requires L.Inv(life, ip) && L.Enabled(life, L.Action(ip, now))
    ensures LocalNews(L.Next(life, L.Action(ip, now)).log) ==
      if HostTable.Fires(life.table[ip]) && life.table[ip].origin == LOCALHOST
      then LocalNews(life.log) + [ip] else LocalNews(life.log)
  {
    LocalNewsAppend(life.log, L.New(ip));
    LocalNewsAppend(life.log, L.Marked(ip));
  }

  lemma ActKeepsSound(ag: Agent, ip: Name, now: int)
    requires Sound(ag) && L.Enabled(ag.life, L.Action(ip, now)) && now <= INT64_MAX
    requires Relays(ag, ip) ==> R.Enabled(ag.relay, R.Accept(ag.life.table[ip]))
    ensures Sound(Acted(ag, ip, now))
  {
    var t, r := Acted(ag, ip, now), ag.life.table[ip];
    assert L.Inv(ag.life, ip);
    forall i
      ensures L.Inv(t.life, i)
    {
      L.StepKeepsInv(ag.life, L.Action(ip, now), i);
    }
    ActNews(ag.life, ip, now);
    if Relays(ag, ip) {
      R.StepKeepsInv(ag.relay, R.Accept(r));
      LocalIsSendable(ag.life, ip);
      assert Ips(t.relay.accepted) == Ips(ag.relay.accepted) + [ip];
    }
  }

  lemma SentNext(fates: seq<R.Fate>, f: R.Fate)
    ensures R.SentOf(fates + [f]) == if f.sent then R.SentOf(fates) + [f.record] else R.SentOf(fates)
  {
    assert (fates + [f])[..|fates|] == fates;
  }

  lemma LinkNext(l: Link, fates: seq<R.Fate>, f: R.Fate)
    requires LinkFits(l, R.SentOf(fates))
    ensures LinkFits(if f.sent then Sending(l, f.record) else l, R.SentOf(fates + [f]))
  {
    SentNext(fates, f);
    R.SubsequenceNext(l.wire, R.SentOf(fates), f.record);
  }

  lemma MovedLinkFits(ag: Agent, st: R.Step, q: nat)
    requires |ag.relay.queues| == |ag.links| && q < |ag.links|
    requires R.Enabled(ag.relay, st) && !st.Accept?
    requires LinkFits(ag.links[q], R.SentOf(ag.relay.queues[q].settled))
    ensures LinkFits(Moved(ag, st).links[q], R.SentOf(Moved(ag, st).relay.queues[q].settled))
  {
    var p, t := ag.relay.queues[q], Moved(ag, st);
    if st.Settle? && st.q == q {
      LinkNext(ag.links[q], p.settled, R.Fate(p.hand[0], st.sent));
    } else {
      assert t.links[q] == ag.links[q] && t.relay.queues[q].settled == p.settled;
    }
  }

  /** Soundness carries over to an agent that differs only inside its queues and links. */
  lemma SoundInside(ag: Agent, t: Agent)
    requires Sound(ag) && t.life == ag.life && t.informs == ag.informs && t.started == ag.started
    requires t.peers == ag.peers && t.missed == ag.missed && t.relay.accepted == ag.relay.accepted
    requires |t.relay.queues| == |t.links| == |ag.links| && R.Inv(t.relay)
    requires forall q :: 0 <= q < |t.links| ==> LinkFits(t.links[q], R.SentOf(t.relay.queues[q].settled))
    ensures Sound(t)
  {
  }

  lemma MovedShape(ag: Agent, st: R.Step)
    requires R.Inv(ag.relay) && R.Enabled(ag.relay, st) && !st.Accept?
    ensures var t := Moved(ag, st);
      && t == ag.(relay := t.relay, links := t.links) && t.relay.accepted == ag.relay.accepted
      && |t.relay.queues| == |ag.relay.queues| && |t.links| == |ag.links| && R.Inv(t.relay)
  {
    R.StepKeepsInv(ag.relay, st);
  }

  lemma MovedLinks(ag: Agent, st: R.Step)
    requires Sound(ag) && R.Enabled(ag.relay, st) && !st.Accept? && |Moved(ag, st).links| == |ag.links|
    requires |Moved(ag, st).relay.queues| == |ag.links|
    ensures forall q :: 0 <= q < |ag.links| ==>
      LinkFits(Moved(ag, st).links[q], R.SentOf(Moved(ag, st).relay.queues[q].settled))
  {
    forall q | 0 <= q < |ag.links|
      ensures LinkFits(Moved(ag, st).links[q], R.SentOf(Moved(ag, st).relay.queues[q].settled))
    {
      MovedLinkFits(ag, st, q);
    }
  }

  lemma InsideKeepsSound(ag: Agent, st: R.Step)
    requires Sound(ag) && R.Enabled(ag.relay, st) && !st.Accept?
    ensures Sound(Moved(ag, st))
  {
    MovedShape(ag, st);
    MovedLinks(ag, st);
    SoundInside(ag, Moved(ag, st));
  }

  lemma LeftFits(l: Link, sent: seq<HostRecord>, k: nat, read: bool)
    requires LinkFits(l, sent) && k < |l.wire|
    ensures LinkFits(Left(l, k, read), sent)
  {
    R.SubsequenceWithout(l.wire, sent, k);
    R.WithoutOne(l.wire, k);
  }

  lemma LandedKeepsSound(ag: Agent, q: nat, k: nat, read: bool)
    requires Sound(ag) && q < |ag.links| && k < |ag.links[q].wire|
    ensures Sound(Landed(ag, q, k, read))
  {
    var t, sent := Landed(ag, q, k, read), R.SentOf(ag.relay.queues[q].settled);
    assert LinkFits(ag.links[q], sent);
    LeftFits(ag.links[q], sent, k, read);
    assert t.links == ag.links[q := Left(ag.links[q], k, read)];
    SoundInside(ag, t);
  }

  // ---- every step of the network ----

  lemma PutSound(net: Net, a: nat, ag: Agent)
    requires Inv(net) && a < |net| && Sound(ag) && ag.peers == net[a].peers
    ensures Inv(net[a := ag])
  {
  }

  lemma ReceivedKeepsInv(net: Net, b: nat, st: L.Step)
    requires Inv(net) && b < |net| && L.Enabled(net[b].life, st) && st.RemoteAdd? && st.now <= INT64_MAX
    ensures Inv(Received(net, b, st))
  {
    assert Sound(net[b]);
    LifeKeepsSound(net[b], st);
    PutSound(net, b, net[b].(life := L.Next(net[b].life, st)));
  }

  lemma ArrivalKeepsInv(net: Net, a: nat, q: nat, k: nat, b: nat, st: L.Step)
    requires Inv(net) && a < |net| && q < |net[a].links| && k < |net[a].links[q].wire|
    requires b < |net| && L.Enabled(net[b].life, st) && st.RemoteAdd? && st.now <= INT64_MAX
    ensures Inv(net[a := Landed(net[a], q, k, true)])
    ensures Inv(Received(net[a := Landed(net[a], q, k, true)], b, st))
  {
    assert Sound(net[a]);
    LandedKeepsSound(net[a], q, k, true);
    PutSound(net, a, Landed(net[a], q, k, true));
    ReceivedKeepsInv(net[a := Landed(net[a], q, k, true)], b, st);
  }

  lemma ExcludedKeepsInv(net: Net, a: nat, q: nat, k: nat, read: bool)
    requires Inv(net) && a < |net| && q < |net[a].links| && k < |net[a].links[q].wire|
    ensures Inv(net[a := Landed(net[a], q, k, read)])
  {
    assert Sound(net[a]);
    LandedKeepsSound(net[a], q, k, read);
    PutSound(net, a, Landed(net[a], q, k, read));
  }

  lemma DeliverKeepsInv(net: Net, step: Step)
    requires Inv(net) && Enabled(net, step) && step.Deliver?
    ensures Inv(Next(net, step))
  {
    var ag := net[step.a];
    if step.excluded {
      ExcludedKeepsInv(net, step.a, step.q, step.k, true);
    } else {
      var added := L.RemoteAdd(Adopted(ag.links[step.q].wire[step.k], step.host), step.now);
      ArrivalKeepsInv(net, step.a, step.q, step.k, ag.peers[step.q], added);
    }
  }

  lemma StepKeepsInv(net: Net, step: Step)
    requires Inv(net) && Enabled(net, step)
    ensures Inv(Next(net, step))
  {
    var ag := net[step.a];
    assert Sound(ag);
    match step
    case Local(_, st) => LifeKeepsSound(ag, st);
    case StartClient(_) =>
    case Act(_, ip, now) => ActKeepsSound(ag, ip, now);
    case Inside(_, st) => InsideKeepsSound(ag, st);
    case Deliver(_, _, _, _, _, _) => DeliverKeepsInv(net, step);
    case Lose(a, q, k) => ExcludedKeepsInv(net, a, q, k, false);
  }

  lemma InitialInv(net: Net)
    requires Initial(net)
    ensures Inv(net)
  {
  }

  lemma {:induction false} RunKeepsInv(net: Net, steps: seq<Step>)
    requires Inv(net) && Runs(net, steps)
    ensures Inv(Exec(net, steps))
    decreases |steps|
  {
    if steps != [] {
      StepKeepsInv(net, steps[0]);
      RunKeepsInv(Next(net, steps[0]), steps[1..]);
    }
  }

  ghost predicate Reachable(net: Net) {
    exists start: Net, steps :: Initial(start) && Runs(start, steps) && net == Exec(start, steps)
  }

  lemma ReachableInv(net: Net)
    requires Reachable(net)
    ensures Inv(net)
  {
    var start: Net, steps :| Initial(start) && Runs(start, steps) && net == Exec(start, steps);
    InitialInv(start);
    RunKeepsInv(start, steps);
  }

  // ---- what every run guarantees ----

  /**
   * One hop: what a peer's queue has settled, has in hand, has linked and is owed is exactly one entry
   * for each local detection since the client started, in order, and nothing a peer ever sent.
   */
  lemma OneHop(net: Net, a: nat, q: nat)
    requires Reachable(net) && a < |net| && net[a].started && q < |net[a].peers|
    ensures |net[a].relay.queues| == |net[a].peers| && net[a].missed <= |LocalNews(net[a].life.log)|
    ensures Ips(R.Ledger(net[a].relay.queues[q], R.Owed(net[a].relay, q)))
         == LocalNews(net[a].life.log)[net[a].missed..]
    ensures AllOutgoing(R.Ledger(net[a].relay.queues[q], R.Owed(net[a].relay, q)))
  {
    ReachableInv(net);
    assert Sound(net[a]);
  }

  lemma {:induction false} SentOutgoing(fates: seq<R.Fate>)
    requires AllOutgoing(R.Records(fates))
    ensures AllOutgoing(R.SentOf(fates))
  {
    if fates != [] {
      var n := |fates| - 1;
      assert R.Records(fates[..n]) == R.Records(fates)[..n];
      SentOutgoing(fates[..n]);
      assert R.Records(fates)[n] == fates[n].record;
    }
  }

  lemma {:induction false} SubsequenceOutgoing(a: seq<HostRecord>, b: seq<HostRecord>)
    requires R.Subsequence(a, b) && AllOutgoing(b)
    ensures AllOutgoing(a)
    decreases b
  {
    if a != [] {
      var n, rest := |a| - 1, b[..|b| - 1];
      if R.Subsequence(a, rest) {
        SubsequenceOutgoing(a, rest);
      } else {
        SubsequenceOutgoing(a[..n], rest);
        assert Outgoing(b[|b| - 1]);
      }
    }
  }

  lemma WireOutgoing(net: Net, a: nat, q: nat)
    requires Inv(net) && a < |net| && q < |net[a].links|
    ensures AllOutgoing(net[a].links[q].wire)
  {
    var ag := net[a];
    assert Sound(ag);
    var p := ag.relay.queues[q];
    assert R.Ledger(p, R.Owed(ag.relay, q)) == ag.relay.accepted;
    assert forall i :: 0 <= i < |p.settled| ==> R.Records(p.settled)[i] == ag.relay.accepted[i];
    SentOutgoing(p.settled);
    assert LinkFits(ag.links[q], R.SentOf(p.settled));
    SubsequenceOutgoing(ag.links[q].wire, R.SentOf(p.settled));
  }

  /**
   * Every record that a worker sent to a peer is in flight, was read there or was lost, exactly once; nothing
   * else is, and what is in flight keeps the order of sending.
   */
  lemma LinkConservation(net: Net, a: nat, q: nat)
    requires Reachable(net) && a < |net| && q < |net[a].peers|
    ensures |net[a].links| == |net[a].relay.queues| == |net[a].peers|
    ensures var l, sent := net[a].links[q], R.SentOf(net[a].relay.queues[q].settled);
      && multiset(sent) == multiset(l.wire) + multiset(l.delivered) + multiset(l.lost)
      && R.Subsequence(l.wire, sent)
  {
    ReachableInv(net);
    assert Sound(net[a]);
    assert LinkFits(net[a].links[q], R.SentOf(net[a].relay.queues[q].settled));
  }

  /** A delivery or a loss takes one record off the wire and leaves the others in order. */
  lemma OneLeaves(net: Net, step: Step)
    requires Enabled(net, step) && (step.Deliver? || step.Lose?)
    ensures var l, m := net[step.a].links[step.q], Next(net, step)[step.a].links[step.q]; var r := l.wire[step.k];
      && multiset(l.wire) == multiset(m.wire) + multiset{r} && R.Subsequence(m.wire, l.wire)
      && m.delivered == (if step.Deliver? then l.delivered + [r] else l.delivered)
      && m.lost == (if step.Lose? then l.lost + [r] else l.lost)
  {
    var l := net[step.a].links[step.q];
    R.WithoutOne(l.wire, step.k);
    R.SubsequenceSelf(l.wire);
    R.SubsequenceWithout(l.wire, l.wire, step.k);
  }

  lemma HostIsRemote(host: Name)
    ensures Truncated(host) == LOCALHOST <==> host == LOCALHOST
  {
  }

  lemma AdoptedIsFit(r: HostRecord, host: Name)
    requires Outgoing(r) && host != LOCALHOST && 0 !in host
    ensures Arrives(r) == r && Adopted(r, host) == r.(remove := 0, processed := 0, origin := Truncated(host))
    ensures L.Normalised(Adopted(r, host)) && IsAddress(Adopted(r, host).ipaddr) && r.occurrences <= INT32_MAX
  {
    ArrivesIntact(r);
    HostIsRemote(host);
    Codec.FitsMachine(r.occurrences);
  }

  /** A record at its threshold fires where it is new, and is due where it is merged unless the counts overflow. */
  lemma DueAfterAdd(table: HostTable.Table, hr: HostRecord, now: int)
    requires 1 <= hr.actionThreshold <= hr.occurrences <= INT32_MAX && hr.processed == 0
    ensures var r := HostTable.AddRecord(table, hr, now)[hr.ipaddr];
      if hr.ipaddr in table
      then 0 <= table[hr.ipaddr].occurrences < INT32_MAX - hr.occurrences ==> L.Due(r)
      else HostTable.Fires(r)
  {
  }

  lemma InFlight(net: Net, a: nat, q: nat, k: nat)
    requires Inv(net) && a < |net| && q < |net[a].links| && k < |net[a].links[q].wire|
    ensures q < |net[a].peers| && net[a].peers[q] < |net| && Outgoing(net[a].links[q].wire[k])
  {
    assert Sound(net[a]);
    WireOutgoing(net, a, q);
  }

  lemma AdoptedConforms(r: HostRecord, host: Name, now: int)
    requires Outgoing(r) && host != LOCALHOST && 0 !in host
    ensures L.Conforming(L.RemoteAdd(Adopted(r, host), now)) && Adopted(r, host).ipaddr == r.ipaddr
  {
    AdoptedIsFit(r, host);
  }

  lemma CanAdd(life: L.State, hr: HostRecord, now: int)
    requires L.Normalised(hr) && IsAddress(hr.ipaddr)
    ensures L.Enabled(life, L.RemoteAdd(hr, now)) <==> !life.stopped && life.clock <= now
  {
  }

  /** Every record in flight reaches its receiver unchanged, passes its assertion and can always be added. */
  lemma ReceiverAssertion(net: Net, a: nat, q: nat, k: nat, host: Name, now: int)
    requires Inv(net) && a < |net| && q < |net[a].links| && k < |net[a].links[q].wire|
    requires host != LOCALHOST && 0 !in host
    ensures q < |net[a].peers| && net[a].peers[q] < |net|
    ensures var r, b := net[a].links[q].wire[k], net[net[a].peers[q]].life; var hr := Adopted(r, host);
      && Arrives(r) == r && hr == r.(remove := 0, processed := 0, origin := Truncated(host))
      && 1 <= hr.actionThreshold <= hr.occurrences <= INT32_MAX
      && L.Conforming(L.RemoteAdd(hr, now))
      && (Enabled(net, Deliver(a, q, k, host, now, false)) <==> !b.stopped && b.clock <= now <= INT64_MAX)
  {
    InFlight(net, a, q, k);
    var r := net[a].links[q].wire[k];
    AdoptedIsFit(r, host);
    CanAdd(net[net[a].peers[q]].life, Adopted(r, host), now);
  }

  /** A record in flight is due right after the insert, and after the merge unless the counts overflow. */
  lemma DueOnArrival(net: Net, a: nat, q: nat, k: nat, host: Name, now: int)
    requires Inv(net) && a < |net| && q < |net[a].links| && k < |net[a].links[q].wire|
    requires host != LOCALHOST && 0 !in host
    ensures q < |net[a].peers| && net[a].peers[q] < |net|
    ensures var hr, table := Adopted(net[a].links[q].wire[k], host), net[net[a].peers[q]].life.table;
      var added := HostTable.AddRecord(table, hr, now)[hr.ipaddr];
      if hr.ipaddr in table
      then 0 <= table[hr.ipaddr].occurrences < INT32_MAX - hr.occurrences ==> L.Due(added)
      else HostTable.Fires(added)
  {
    InFlight(net, a, q, k);
    AdoptedIsFit(net[a].links[q].wire[k], host);
    DueAfterAdd(net[net[a].peers[q]].life.table, Adopted(net[a].links[q].wire[k], host), now);
  }

  // ---- what a run of the network is at one agent ----

  /** A network step as the lifecycle step it is at agent b, if it is one there. */
  function Own(net: Net, step: Step, b: nat): (own: seq<L.Step>)
    requires Enabled(net, step) && b < |net|
    ensures |own| <= 1 && (own != [] ==> L.Enabled(net[b].life, own[0]))
  {
    match step
    case Local(a, st) => if a == b then [st] else []
    case Act(a, ip, now) => if a == b then [L.Action(ip, now)] else []
    case Deliver(a, q, k, host, now, excluded) =>
      if !excluded && net[a].peers[q] == b then [L.RemoteAdd(Adopted(net[a].links[q].wire[k], host), now)] else []
    case _ => []
  }

  function Projected(net: Net, steps: seq<Step>, b: nat): seq<L.Step>
    requires Runs(net, steps) && b < |net|
    decreases |steps|
  {
    if steps == [] then [] else Own(net, steps[0], b) + Projected(Next(net, steps[0]), steps[1..], b)
  }

  lemma OwnStep(net: Net, step: Step, b: nat)
    requires Enabled(net, step) && b < |net|
    ensures |Next(net, step)| == |net|
    ensures var own := Own(net, step, b);
      Next(net, step)[b].life == if own == [] then net[b].life else L.Next(net[b].life, own[0])
  {
  }

  /** What a run of the network does to one agent's table is a lifecycle run. */
  lemma {:induction false} ProjectedRuns(net: Net, steps: seq<Step>, b: nat)
    requires Runs(net, steps) && b < |net|
    ensures |Exec(net, steps)| == |net|
    ensures L.Runs(net[b].life, Projected(net, steps, b))
    ensures L.Exec(net[b].life, Projected(net, steps, b)) == Exec(net, steps)[b].life
    decreases |steps|
  {
    if steps != [] {
      var own, rest := Own(net, steps[0], b), Projected(Next(net, steps[0]), steps[1..], b);
      OwnStep(net, steps[0], b);
      ProjectedRuns(Next(net, steps[0]), steps[1..], b);
      if own == [] {
        assert own + rest == rest;
      } else {
        assert own == [own[0]];
        L.ExecCons(net[b].life, own[0], rest);
      }
    }
  }

  /**
   * A new IP gets the record as it is; a known one gets its settings, stays processed if it was, and adds the
   * counts and one more if the record arrives in its window.
   */
  function WithRecord(table: HostTable.Table, hr: HostRecord, now: int): HostTable.Table {
    if hr.ipaddr !in table then table[hr.ipaddr := hr] else
      var prev := table[hr.ipaddr];
      var tick := if now - hr.firstseen <= hr.timeInterval then 1 else 0;
      table[hr.ipaddr := hr.(processed := prev.processed, lastseen := now,
                             occurrences := Wrap32(prev.occurrences + hr.occurrences + tick))]
  }

  lemma AddedExactly(life: L.State, hr: HostRecord, now: int)
    requires L.Enabled(life, L.RemoteAdd(hr, now))
    ensures L.Next(life, L.RemoteAdd(hr, now)).table == WithRecord(life.table, hr, now)
  {
    if hr.ipaddr in life.table {
      L.WrapAdd(hr.occurrences + life.table[hr.ipaddr].occurrences, 1);
    }
  }

  /**
   * What a delivery does to the receiver's table: it takes in the record as it was sent, but of the sender's
   * origin and neither flagged nor processed.
   */
  lemma ArrivalExactly(net: Net, step: Step)
    requires Inv(net) && Enabled(net, step) && step.Deliver? && !step.excluded
    ensures net[step.a].peers[step.q] < |net| == |Next(net, step)|
    ensures var r, b := net[step.a].links[step.q].wire[step.k], net[step.a].peers[step.q];
      Next(net, step)[b].life.table == WithRecord(
        net[b].life.table, r.(remove := 0, processed := 0, origin := Truncated(step.host)), step.now)
  {
    var r, b := net[step.a].links[step.q].wire[step.k], net[step.a].peers[step.q];
    InFlight(net, step.a, step.q, step.k);
    AdoptedIsFit(r, step.host);
    OwnStep(net, step, b);
    AddedExactly(net[b].life, Adopted(r, step.host), step.now);
  }

  lemma OwnConforms(net: Net, step: Step, b: nat)
    requires Inv(net) && Enabled(net, step) && b < |net|
    ensures L.AllConforming(Own(net, step, b))
  {
    if step.Deliver? {
      InFlight(net, step.a, step.q, step.k);
      AdoptedConforms(net[step.a].links[step.q].wire[step.k], step.host, step.now);
    }
  }

  /** Every peer's record that reaches a table of the network is at or above its own positive threshold. */
  lemma {:induction false} ProjectedConforms(net: Net, steps: seq<Step>, b: nat)
    requires Inv(net) && Runs(net, steps) && b < |net|
    ensures L.AllConforming(Projected(net, steps, b))
    decreases |steps|
  {
    if steps != [] {
      OwnStep(net, steps[0], b);
      OwnConforms(net, steps[0], b);
      StepKeepsInv(net, steps[0]);
      ProjectedConforms(Next(net, steps[0]), steps[1..], b);
    }
  }

  /** No step of the run frees the IP's record at b or overflows its count there. */
  predicate KeepsAt(net: Net, steps: seq<Step>, b: nat, ip: Name)
    requires Runs(net, steps) && b < |net|
    decreases |steps|
  {
    steps == [] || (
      var own := Own(net, steps[0], b);
      && (own != [] ==> L.NoOverflow(net[b].life, own[0], ip) && own[0] != L.Purge(ip))
      && KeepsAt(Next(net, steps[0]), steps[1..], b, ip))
  }

  lemma {:induction false} KeepsProjected(net: Net, steps: seq<Step>, b: nat, ip: Name)
    requires Runs(net, steps) && b < |net| && KeepsAt(net, steps, b, ip)
    ensures L.Runs(net[b].life, Projected(net, steps, b))
    ensures L.KeepsRecord(net[b].life, Projected(net, steps, b), ip)
    decreases |steps|
  {
    ProjectedRuns(net, steps, b);
    if steps != [] {
      var own, rest := Own(net, steps[0], b), Projected(Next(net, steps[0]), steps[1..], b);
      OwnStep(net, steps[0], b);
      KeepsProjected(Next(net, steps[0]), steps[1..], b, ip);
      if own == [] {
        assert own + rest == rest;
      } else {
        assert (own + rest)[1..] == rest && own[0] != L.Destroy(ip);
      }
    }
  }

  /**
   * End to end: whatever happens anywhere after a delivery, the receiver's next visit of the record leaves
   * it processed, unless the record was freed or its count overflowed there in between.
   */
  lemma RelayedGetsProcessed(net: Net, arrival: Step, steps: seq<Step>, now: int)
    requires Reachable(net) && arrival.Deliver? && !arrival.excluded && Runs(net, [arrival] + steps)
    requires var b, ip := net[arrival.a].peers[arrival.q], net[arrival.a].links[arrival.q].wire[arrival.k].ipaddr;
      && KeepsAt(net, [arrival] + steps, b, ip)
      && Enabled(Exec(net, [arrival] + steps), Act(b, ip, now))
    ensures var b, ip := net[arrival.a].peers[arrival.q], net[arrival.a].links[arrival.q].wire[arrival.k].ipaddr;
      Next(Exec(net, [arrival] + steps), Act(b, ip, now))[b].life.table[ip].processed != 0
  {
    var all := [arrival] + steps;
    var b, r := net[arrival.a].peers[arrival.q], net[arrival.a].links[arrival.q].wire[arrival.k];
    ReachableInv(net);
    InFlight(net, arrival.a, arrival.q, arrival.k);
    AdoptedConforms(r, arrival.host, arrival.now);
    ProjectedRuns(net, all, b);
    ProjectedConforms(net, all, b);
    KeepsProjected(net, all, b, r.ipaddr);
    var received := L.RemoteAdd(Adopted(r, arrival.host), arrival.now);
    var rest := Projected(Next(net, arrival), all[1..], b);
    assert Projected(net, all, b) == [received] + rest;
    L.ReceivedGetsProcessed(net[b].life, received, rest, now);
  }

  /** Relaying does not disturb the lifecycle: at every agent the actions for every IP still alternate. */
  lemma AgentActionsAlternate(net: Net, a: nat, ip: Name)
    requires Reachable(net) && a < |net|
    ensures var life := net[a].life; var actions := L.Read(life.log, ip).actions;
      L.Alternates(actions) && (|actions| % 2 == 1 <==> ip in life.table && life.table[ip].processed != 0)
  {
    ReachableInv(net);
    assert Sound(net[a]) && L.Inv(net[a].life, ip);
  }
}
