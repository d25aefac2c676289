/**
 * The path of a detection to the peers inside one agent, as a state machine: the shared batch,
 * the per-peer queues under their mutexes, and the per-peer workers. A step is one critical
 * section or one queue entry, so workers interleave with a flush that is half done.
 */
module Relay {
  import opened Base

  const BATCH_LENGTH := 25

  datatype WorkerPc =
    | Ready     // about to lock the queue
    | Waiting   // in pthread_cond_wait, not signalled
    | Woken     // signalled, about to test the queue again
    | Busy      // working through a detached queue

  /** What became of a queue entry. */
  datatype Fate = Fate(record: HostRecord, sent: bool)

  datatype PeerQueue = PeerQueue(pc: WorkerPc, list: seq<HostRecord>, hand: seq<HostRecord>, settled: seq<Fate>)

  /** `served` counts the queues that already got the batch in the flush under way; `accepted` is history. */
  datatype State = State(
    batch: seq<HostRecord>,
    flushing: bool,
    served: nat,
    queues: seq<PeerQueue>,
    accepted: seq<HostRecord>)

  datatype Step =
    | Accept(r: HostRecord)
    | BeginFlush
    | Append
    | EndFlush
    | Check(q: nat)
    | Wake(q: nat)
    | Settle(q: nat, sent: bool)
    | Finish(q: nat)

  predicate Enabled(s: State, step: Step) {
    match step
    case Accept(_) => !s.flushing && |s.batch| < BATCH_LENGTH
    case BeginFlush => !s.flushing && s.batch != []
    case Append => s.flushing && s.served < |s.queues|
    case EndFlush => s.flushing && s.served == |s.queues|
    case Check(q) => q < |s.queues| && (s.queues[q].pc == Ready || s.queues[q].pc == Woken)
    case Wake(q) => q < |s.queues| && s.queues[q].pc == Waiting
    case Settle(q, _) => q < |s.queues| && s.queues[q].pc == Busy && s.queues[q].hand != []
    case Finish(q) => q < |s.queues| && s.queues[q].pc == Busy && s.queues[q].hand == []
  }

  /** client_queue_append: link the copies in, then signal. */
  function Appended(p: PeerQueue, rs: seq<HostRecord>): PeerQueue {
    p.(list := p.list + rs, pc := if p.pc == Waiting then Woken else p.pc)
  }

  /** The worker's test of the queue: wait while it is empty, otherwise take all of it. */
  function Checked(p: PeerQueue): PeerQueue {
    if p.list == [] then p.(pc := Waiting) else p.(pc := Busy, hand := p.list, list := [])
  }

  function Settled(p: PeerQueue, sent: bool): PeerQueue
    requires p.hand != []
  {
    p.(hand := p.hand[1..], settled := p.settled + [Fate(p.hand[0], sent)])
  }

  function Next(s: State, step: Step): State
    requires Enabled(s, step)
  {
    match step
    case Accept(r) => s.(batch := s.batch + [r], accepted := s.accepted + [r])
    case BeginFlush => s.(flushing := true)
    case Append => s.(queues := s.queues[s.served := Appended(s.queues[s.served], s.batch)], served := s.served + 1)
    case EndFlush => s.(batch := [], flushing := false, served := 0)
    case Check(q) => s.(queues := s.queues[q := Checked(s.queues[q])])
    case Wake(q) => s.(queues := s.queues[q := s.queues[q].(pc := Woken)])
    case Settle(q, sent) => s.(queues := s.queues[q := Settled(s.queues[q], sent)])
    case Finish(q) => s.(queues := s.queues[q := s.queues[q].(pc := Ready)])
  }

  predicate Runs(s: State, steps: seq<Step>)
    decreases |steps|
  {
    steps == [] || (Enabled(s, steps[0]) && Runs(Next(s, steps[0]), steps[1..]))
  }

  function Exec(s: State, steps: seq<Step>): State
    requires Runs(s, steps)
    decreases |steps|
  {
    if steps == [] then s else Exec(Next(s, steps[0]), steps[1..])
  }

  function Init(peers: nat): State {
    State([], false, 0, seq(peers, i => PeerQueue(Ready, [], [], [])), [])
  }

  // ---- the ledger ----

  function Records(fates: seq<Fate>): seq<HostRecord> {
    seq(|fates|, i requires 0 <= i < |fates| => fates[i].record)
  }

  /** The part of the batch a queue has not been given yet. */
  function Owed(s: State, q: nat): seq<HostRecord> {
    if s.flushing && q < s.served then [] else s.batch
  }

  function Ledger(p: PeerQueue, owed: seq<HostRecord>): seq<HostRecord> {
    Records(p.settled) + p.hand + p.list + owed
  }

  ghost predicate QueueInv(p: PeerQueue) {
    && (p.pc == Waiting ==> p.list == [])
    && (p.pc != Busy ==> p.hand == [])
  }

  ghost predicate Inv(s: State) {
    && |s.batch| <= BATCH_LENGTH
    && s.served <= |s.queues| && (!s.flushing ==> s.served == 0) && (s.flushing ==> s.batch != [])
    && forall q :: 0 <= q < |s.queues| ==> QueueInv(s.queues[q]) && Ledger(s.queues[q], Owed(s, q)) == s.accepted
  }

  lemma AcceptKeepsInv(s: State, step: Step)
    requires Inv(s) && Enabled(s, step) && step.Accept?
    ensures Inv(Next(s, step))
  {
    var t := Next(s, step);
    forall q | 0 <= q < |t.queues|
      ensures Ledger(t.queues[q], Owed(t, q)) == t.accepted
    {
      assert Ledger(s.queues[q], Owed(s, q)) == s.accepted;
      assert Ledger(t.queues[q], t.batch) == Ledger(s.queues[q], s.batch) + [step.r];
    }
  }

  lemma FlushKeepsInv(s: State, step: Step)
    requires Inv(s) && Enabled(s, step) && (step.BeginFlush? || step.Append? || step.EndFlush?)
    ensures Inv(Next(s, step))
  {
    var t := Next(s, step);
    forall q | 0 <= q < |t.queues|
      ensures QueueInv(t.queues[q]) && Ledger(t.queues[q], Owed(t, q)) == t.accepted
    {
      assert Ledger(s.queues[q], Owed(s, q)) == s.accepted;
      if step.Append? && q == s.served {
        assert Ledger(t.queues[q], []) == Ledger(s.queues[q], s.batch);
      }
    }
  }

  lemma CheckedLedger(p: PeerQueue, owed: seq<HostRecord>)
    requires p.hand == []
    ensures Ledger(Checked(p), owed) == Ledger(p, owed)
  {
    assert p.list != [] ==> Records(p.settled) + p.list + [] + owed == Records(p.settled) + [] + p.list + owed;
  }

  lemma SettledLedger(p: PeerQueue, sent: bool, owed: seq<HostRecord>)
    requires p.hand != []
    ensures Ledger(Settled(p, sent), owed) == Ledger(p, owed)
  {
    assert Records(Settled(p, sent).settled) == Records(p.settled) + [p.hand[0]];
    assert p.hand == [p.hand[0]] + p.hand[1..];
  }

  lemma WorkerKeepsInv(s: State, step: Step)
    requires Inv(s) && Enabled(s, step) && (step.Check? || step.Wake? || step.Settle? || step.Finish?)
    ensures Inv(Next(s, step))
  {
    var t, p := Next(s, step), s.queues[step.q];
    if step.Check? {
      CheckedLedger(p, Owed(s, step.q));
    } else if step.Settle? {
      SettledLedger(p, step.sent, Owed(s, step.q));
    }
    forall q | 0 <= q < |t.queues|
      ensures QueueInv(t.queues[q]) && Ledger(t.queues[q], Owed(t, q)) == t.accepted
    {
      assert QueueInv(s.queues[q]) && Ledger(s.queues[q], Owed(s, q)) == s.accepted;
    }
  }

  lemma StepKeepsInv(s: State, step: Step)
    requires Inv(s) && Enabled(s, step)
    ensures Inv(Next(s, step))
  {
    if step.Accept? {
      AcceptKeepsInv(s, step);
    } else if step.BeginFlush? || step.Append? || step.EndFlush? {
      FlushKeepsInv(s, step);
    } else {
      WorkerKeepsInv(s, step);
    }
  }

  lemma {:induction false} RunKeepsInv(s: State, steps: seq<Step>)
    requires Inv(s) && Runs(s, steps)
    ensures Inv(Exec(s, steps))
    decreases |steps|
  {
    if steps != [] {
      StepKeepsInv(s, steps[0]);
      RunKeepsInv(Next(s, steps[0]), steps[1..]);
    }
  }

  // ---- what every run guarantees ----

  /** At every point, what a queue settled, has in hand, has linked and is owed is what was accepted, in order. */
  lemma Conservation(peers: nat, steps: seq<Step>, q: nat)
    requires Runs(Init(peers), steps) && q < |Exec(Init(peers), steps).queues|
    ensures var s := Exec(Init(peers), steps);
      Records(s.queues[q].settled) + s.queues[q].hand + s.queues[q].list + Owed(s, q) == s.accepted
  {
    RunKeepsInv(Init(peers), steps);
    var s := Exec(Init(peers), steps);
    assert Ledger(s.queues[q], Owed(s, q)) == s.accepted;
  }

  function SentOf(fates: seq<Fate>): seq<HostRecord> {
    if fates == [] then [] else
      var n := |fates| - 1;
      if fates[n].sent then SentOf(fates[..n]) + [fates[n].record] else SentOf(fates[..n])
  }

  /** Whether `a` can be got from `b` by leaving entries out. */
  predicate Subsequence(a: seq<HostRecord>, b: seq<HostRecord>) {
    a == [] || (b != [] && (
      || Subsequence(a, b[..|b| - 1])
      || (a[|a| - 1] == b[|b| - 1] && Subsequence(a[..|a| - 1], b[..|b| - 1]))))
  }

  lemma SubsequenceNext(a: seq<HostRecord>, b: seq<HostRecord>, x: HostRecord)
    requires Subsequence(a, b)
    ensures Subsequence(a, b + [x]) && Subsequence(a + [x], b + [x])
  {
    assert (b + [x])[..|b|] == b && (a + [x])[..|a|] == a;
  }

  lemma {:induction false} SentAmongRecords(fates: seq<Fate>)
    ensures Subsequence(SentOf(fates), Records(fates))
  {
    if fates != [] {
      var n := |fates| - 1;
      SentAmongRecords(fates[..n]);
      SubsequenceNext(SentOf(fates[..n]), Records(fates[..n]), fates[n].record);
      assert Records(fates) == Records(fates[..n]) + [fates[n].record];
    }
  }

  lemma {:induction false} SubsequenceExtends(a: seq<HostRecord>, b: seq<HostRecord>, c: seq<HostRecord>)
    requires Subsequence(a, b)
    ensures Subsequence(a, b + c)
  {
    if c == [] {
      assert b + c == b;
    } else {
      SubsequenceExtends(a, b, c[..|c| - 1]);
      assert (b + c)[..|b + c| - 1] == b + c[..|c| - 1];
    }
  }

  function Without(rs: seq<HostRecord>, k: nat): seq<HostRecord>
    requires k < |rs|
  {
    rs[..k] + rs[k + 1..]
  }

  lemma {:induction false} SubsequenceSelf(rs: seq<HostRecord>)
    ensures Subsequence(rs, rs)
  {
    if rs != [] {
      SubsequenceSelf(rs[..|rs| - 1]);
    }
  }

  lemma WithoutOne(rs: seq<HostRecord>, k: nat)
    requires k < |rs|
    ensures multiset(Without(rs, k)) + multiset{rs[k]} == multiset(rs)
  {
    assert rs == rs[..k] + ([rs[k]] + rs[k + 1..]);
  }

  lemma {:induction false} SubsequenceWithout(a: seq<HostRecord>, b: seq<HostRecord>, k: nat)
    requires Subsequence(a, b) && k < |a|
    ensures Subsequence(Without(a, k), b)
    decreases b
  {
    var n, rest := |a| - 1, b[..|b| - 1];
    if Subsequence(a, rest) {
      SubsequenceWithout(a, rest, k);
    } else if k == n {
      assert Without(a, k) == a[..n];
    } else {
      SubsequenceWithout(a[..n], rest, k);
      assert Without(a, k) == Without(a[..n], k) + [a[n]];
      SubsequenceNext(Without(a[..n], k), rest, a[n]);
      assert rest + [b[|b| - 1]] == b;
    }
  }

  lemma {:induction false} SubsequenceCons(x: HostRecord, a: seq<HostRecord>, b: seq<HostRecord>)
    requires Subsequence(a, b)
    ensures Subsequence(a, [x] + b) && Subsequence([x] + a, [x] + b)
    decreases b
  {
    if b == [] {
      assert Subsequence([], []);
      SubsequenceNext([], [], x);
      assert a == [] && [] + [x] == [x] + a && [] + [x] == [x] + b;
    } else {
      var n, rest := |a| - 1, b[..|b| - 1];
      assert ([x] + b)[..|b|] == [x] + rest;
      if Subsequence(a, rest) {
        SubsequenceCons(x, a, rest);
      } else {
        SubsequenceCons(x, a[..n], rest);
        assert ([x] + a)[..|a|] == [x] + a[..n];
      }
    }
  }

  lemma {:induction false} SubsequencePrefix(a: seq<HostRecord>, b: seq<HostRecord>, n: nat)
    requires Subsequence(a, b) && n <= |a|
    ensures Subsequence(a[..n], b)
    decreases |a|
  {
    if n == |a| {
      assert a[..n] == a;
    } else {
      var shorter := a[..|a| - 1];
      SubsequenceWithout(a, b, |a| - 1);
      assert Without(a, |a| - 1) == shorter && shorter[..n] == a[..n];
      SubsequencePrefix(shorter, b, n);
    }
  }

  lemma {:induction false} SubsequenceMember(a: seq<HostRecord>, b: seq<HostRecord>, k: nat)
    requires Subsequence(a, b) && k < |a|
    ensures a[k] in b
    decreases b
  {
    var n, rest := |a| - 1, b[..|b| - 1];
    if Subsequence(a, rest) {
      SubsequenceMember(a, rest, k);
    } else if k < n {
      SubsequenceMember(a[..n], rest, k);
    }
  }

  /** What a peer is sent is a subsequence of what was accepted: nothing is invented, doubled or reordered. */
  lemma SentInOrder(peers: nat, steps: seq<Step>, q: nat)
    requires Runs(Init(peers), steps) && q < |Exec(Init(peers), steps).queues|
    ensures var s := Exec(Init(peers), steps); Subsequence(SentOf(s.queues[q].settled), s.accepted)
  {
    var s := Exec(Init(peers), steps);
    var p := s.queues[q];
    Conservation(peers, steps, q);
    SentAmongRecords(p.settled);
    SubsequenceExtends(SentOf(p.settled), Records(p.settled), p.hand + p.list + Owed(s, q));
    assert s.accepted == Records(p.settled) + (p.hand + p.list + Owed(s, q));
  }

  /** A waiting worker has nothing to wait for, and an append leaves its worker runnable with work to do. */
  lemma NoLostWakeup(peers: nat, steps: seq<Step>, q: nat)
    requires Runs(Init(peers), steps) && q < |Exec(Init(peers), steps).queues|
    ensures var s := Exec(Init(peers), steps);
      && (s.queues[q].pc == Waiting ==> s.queues[q].list == [] && s.queues[q].hand == [])
      && (Enabled(s, Append) && s.served == q ==>
          Next(s, Append).queues[q].list != [] && Next(s, Append).queues[q].pc != Waiting)
  {
    RunKeepsInv(Init(peers), steps);
    var s := Exec(Init(peers), steps);
    assert QueueInv(s.queues[q]);
  }

  predicate ByWorker(steps: seq<Step>, q: nat) {
    forall i :: 0 <= i < |steps| ==>
      (steps[i].Check? || steps[i].Settle? || steps[i].Finish?) && steps[i].q == q
  }

  function Rank(p: PeerQueue): nat {
    4 * |p.list| + 2 * |p.hand| + (if p.pc == Busy then 1 else 0)
  }

  /** The worker's next step towards an empty queue. */
  function WorkStep(p: PeerQueue, q: nat): Step {
    if p.hand != [] then Settle(q, true) else if p.pc == Busy then Finish(q) else Check(q)
  }

  /** How many steps of its own the worker still needs. */
  function WorkLeft(p: PeerQueue): nat {
    |p.hand| + |p.list| + if p.list == [] then 0 else if p.pc == Busy then 2 else 1
  }

  lemma WorkStepHelps(s: State, q: nat)
    requires Inv(s) && q < |s.queues| && (s.queues[q].hand != [] || s.queues[q].list != [])
    ensures var p, st := s.queues[q], WorkStep(s.queues[q], q);
      && Enabled(s, st) && Inv(Next(s, st)) && |Next(s, st).queues| == |s.queues|
      && Ledger(Next(s, st).queues[q], []) == Ledger(p, [])
      && Rank(Next(s, st).queues[q]) < Rank(p) && WorkLeft(Next(s, st).queues[q]) < WorkLeft(p)
  {
    var p := s.queues[q];
    assert QueueInv(p);
    StepKeepsInv(s, WorkStep(p, q));
    if p.hand != [] {
      SettledLedger(p, true, []);
    } else if p.pc != Busy {
      CheckedLedger(p, []);
    }
  }

  /**
   * Whatever the other threads left behind, a worker that keeps running settles all its queue holds: one step
   * an entry, and one to take the linked entries together once it is done with those in hand.
   */
  lemma {:induction false} WorkerDrains(s: State, q: nat) returns (steps: seq<Step>)
    requires Inv(s) && q < |s.queues|
    ensures Runs(s, steps) && ByWorker(steps, q) && |steps| <= WorkLeft(s.queues[q])
    ensures var p := Exec(s, steps).queues;
      |p| == |s.queues| && p[q].list == [] && p[q].hand == []
      && Records(p[q].settled) == Records(s.queues[q].settled) + s.queues[q].hand + s.queues[q].list
    decreases Rank(s.queues[q])
  {
    var p := s.queues[q];
    if p.list == [] && p.hand == [] {
      steps := [];
      assert Records(p.settled) + [] + [] == Records(p.settled);
      return;
    }
    var step := WorkStep(p, q);
    WorkStepHelps(s, q);
    var rest := WorkerDrains(Next(s, step), q);
    steps := [step] + rest;
    assert steps[1..] == rest;
    var n := Next(s, step).queues[q];
    assert Ledger(n, []) == Records(n.settled) + n.hand + n.list;
    assert Ledger(p, []) == Records(p.settled) + p.hand + p.list;
  }

  // ---- a whole flush ----

  function Appends(n: nat): seq<Step> {
    seq(n, i => Append)
  }

  function FlushSteps(peers: nat): seq<Step> {
    [BeginFlush] + Appends(peers) + [EndFlush]
  }

  /** The first n queues have got the batch. */
  function AppendedTo(queues: seq<PeerQueue>, batch: seq<HostRecord>, n: nat): seq<PeerQueue> {
    seq(|queues|, i requires 0 <= i < |queues| => if i < n then Appended(queues[i], batch) else queues[i])
  }

  lemma AppendedStep(queues: seq<PeerQueue>, batch: seq<HostRecord>, i: nat)
    requires i < |queues|
    ensures var some := AppendedTo(queues, batch, i);
      some[i := Appended(some[i], batch)] == AppendedTo(queues, batch, i + 1)
  {
  }

  function ServedTo(s: State, n: nat): State {
    s.(flushing := true, served := n, queues := AppendedTo(s.queues, s.batch, n))
  }

  lemma {:induction false} AppendsRun(s: State, from: nat)
    requires !s.flushing && s.batch != [] && from <= |s.queues|
    ensures var steps := Appends(|s.queues| - from) + [EndFlush];
      && Runs(ServedTo(s, from), steps)
      && Exec(ServedTo(s, from), steps) == ServedTo(s, |s.queues|).(batch := [], flushing := false, served := 0)
    decreases |s.queues| - from
  {
    var steps := Appends(|s.queues| - from) + [EndFlush];
    if from < |s.queues| {
      AppendsRun(s, from + 1);
      assert steps[1..] == Appends(|s.queues| - from - 1) + [EndFlush];
      AppendedStep(s.queues, s.batch, from);
    } else {
      assert steps == [EndFlush];
    }
  }

  /** A flush gives every queue the whole batch and empties it. */
  lemma FlushRun(s: State)
    requires !s.flushing && s.served == 0 && s.batch != []
    ensures Runs(s, FlushSteps(|s.queues|))
    ensures Exec(s, FlushSteps(|s.queues|)) == ServedTo(s, |s.queues|).(batch := [], flushing := false, served := 0)
  {
    var steps := FlushSteps(|s.queues|);
    AppendsRun(s, 0);
    assert steps[1..] == Appends(|s.queues|) + [EndFlush];
    assert Next(s, BeginFlush).queues == ServedTo(s, 0).queues;
  }

  /** The state after a flush, which does nothing to an empty batch. */
  function Flushed(s: State): State
    requires !s.flushing && s.served == 0
  {
    if s.batch == [] then s else FlushRun(s); Exec(s, FlushSteps(|s.queues|))
  }

  /** What client_queue_record does to take a record: a full batch is flushed first. */
  function QueueSteps(s: State, r: HostRecord): seq<Step> {
    if |s.batch| < BATCH_LENGTH then [Accept(r)] else FlushSteps(|s.queues|) + [Accept(r)]
  }

  lemma {:induction false} ExecConcat(s: State, first: seq<Step>, second: seq<Step>)
    requires Runs(s, first) && Runs(Exec(s, first), second)
    ensures Runs(s, first + second) && Exec(s, first + second) == Exec(Exec(s, first), second)
    decreases |first|
  {
    if first == [] {
      assert first + second == second;
    } else {
      ExecConcat(Next(s, first[0]), first[1..], second);
      assert (first + second)[1..] == first[1..] + second;
    }
  }

  lemma ExecOne(s: State, step: Step)
    requires Enabled(s, step)
    ensures Runs(s, [step]) && Exec(s, [step]) == Next(s, step)
  {
    assert [step][1..] == [];
  }

  /** Between flushes a record can always be taken. */
  lemma QueueRun(s: State, r: HostRecord)
    requires !s.flushing && s.served == 0 && |s.batch| <= BATCH_LENGTH
    ensures Runs(s, QueueSteps(s, r))
    ensures |s.batch| == BATCH_LENGTH ==>
      && Runs(s, FlushSteps(|s.queues|))
      && Enabled(Exec(s, FlushSteps(|s.queues|)), Accept(r))
      && Exec(s, QueueSteps(s, r)) == Next(Exec(s, FlushSteps(|s.queues|)), Accept(r))
    ensures |s.batch| < BATCH_LENGTH ==> Exec(s, QueueSteps(s, r)) == Next(s, Accept(r))
    ensures Exec(s, QueueSteps(s, r)).accepted == s.accepted + [r]
  {
    if |s.batch| < BATCH_LENGTH {
      ExecOne(s, Accept(r));
    } else {
      FlushRun(s);
      var t := Exec(s, FlushSteps(|s.queues|));
      ExecOne(t, Accept(r));
      ExecConcat(s, FlushSteps(|s.queues|), [Accept(r)]);
    }
  }

  /** Taking a record when the batch is full is a flush, and then taking it. */
  lemma QueueFull(s: State, r: HostRecord)
    requires !s.flushing && s.served == 0 && |s.batch| == BATCH_LENGTH
    ensures var t := Flushed(s);
      && Runs(s, QueueSteps(s, r)) && Runs(t, QueueSteps(t, r))
      && Exec(s, QueueSteps(s, r)) == Exec(t, QueueSteps(t, r))
  {
    FlushRun(s);
    QueueRun(s, r);
    QueueRun(Flushed(s), r);
  }
}
