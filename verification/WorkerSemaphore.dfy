/** The server's worker threads and the semaphore that bounds how many of them serve at a time. */
module WorkerSemaphore {
  import opened Base

  /** Where a worker thread is: before sem_wait, between it and sem_post, or past both. */
  datatype Phase = Arrived | Serving | Gone

  /** Every way out of the guarded section goes through sem_post. */
  datatype Exit = SelectError | TimeOut | WrongDescriptor | ReadError | ShortRead | UnknownCommand | EndOfStream

  const MAX_POLLS := 10

  /** Where the listening thread is with a connection: none yet, in its n-th poll for a slot, or past the wait. */
  datatype Server = Listening | Polling(n: nat) | Accepting

  datatype State = State(value: int, workers: seq<Phase>, server: Server)

  datatype Step =
    | Connect                        // a connection is pending
    | Poll                           // one turn of the wait for a free slot
    | PollError                      // sem_getvalue fails, and the wait is over
    | Spawn                          // the connection is accepted and gets a worker
    | Drop                           // accept or pthread_create fails
    | Enter(w: nat)                  // sem_wait returns 0
    | Refuse(w: nat)                 // sem_wait fails, and nothing is posted
    | Leave(w: nat, exit: Exit)

  predicate Enabled(s: State, step: Step) {
    match step
    case Connect => s.server.Listening?
    case Poll => s.server.Polling?
    case PollError => s.server.Polling?
    case Spawn => s.server.Accepting?
    case Drop => s.server.Accepting?
    case Enter(w) => w < |s.workers| && s.workers[w] == Arrived && s.value > 0
    case Refuse(w) => w < |s.workers| && s.workers[w] == Arrived
    case Leave(w, _) => w < |s.workers| && s.workers[w] == Serving
  }

  function Next(s: State, step: Step): State
    requires Enabled(s, step)
  {
    match step
    case Connect => s.(server := Polling(1))
    case Poll =>
      s.(server := if s.value >= 1 || s.server.n >= MAX_POLLS then Accepting else Polling(s.server.n + 1))
    case PollError => s.(server := Accepting)
    case Spawn => s.(workers := s.workers + [Arrived], server := Listening)
    case Drop => s.(server := Listening)
    case Enter(w) => s.(value := s.value - 1, workers := s.workers[w := Serving])
    case Refuse(w) => s.(workers := s.workers[w := Gone])
    case Leave(w, _) => s.(value := s.value + 1, workers := s.workers[w := Gone])
  }

  predicate Runs(s: State, steps: seq<Step>)
    decreases |steps|
  {
    steps == [] || (Enabled(s, steps[0]) && Runs(Next(s, steps[0]), steps[1..]))
  }

  function Exec(s: State, steps: seq<Step>): State
    requires Runs(s, steps)
    decreases |steps|
  {
    if steps == [] then s else Exec(Next(s, steps[0]), steps[1..])
  }

  /** The server starts with the sanitised number of connections. */
  function Init(raw: Config): State {
    State(Sanitize(raw).maxInConnections, [], Listening)
  }

  /** How many workers are in the guarded section. */
  function Inside(workers: seq<Phase>): nat {
    if workers == [] then 0
    else Inside(workers[..|workers| - 1]) + if workers[|workers| - 1] == Serving then 1 else 0
  }

  lemma {:induction false} InsideUpdate(workers: seq<Phase>, w: nat, p: Phase)
    requires w < |workers|
    ensures Inside(workers[w := p]) + (if workers[w] == Serving then 1 else 0)
         == Inside(workers) + (if p == Serving then 1 else 0)
  {
    var n := |workers| - 1;
    if w < n {
      InsideUpdate(workers[..n], w, p);
      assert workers[w := p][..n] == workers[..n][w := p];
    } else {
      assert workers[w := p][..n] == workers[..n];
    }
  }

  lemma StepConserves(s: State, step: Step)
    requires Enabled(s, step)
    ensures Next(s, step).value + Inside(Next(s, step).workers) == s.value + Inside(s.workers)
    ensures s.value >= 0 ==> Next(s, step).value >= 0
  {
    match step
    case Connect => case Poll => case PollError => case Drop =>
    case Spawn => assert (s.workers + [Arrived])[..|s.workers|] == s.workers;
    case Enter(w) => InsideUpdate(s.workers, w, Serving);
    case Refuse(w) => InsideUpdate(s.workers, w, Gone);
    case Leave(w, _) => InsideUpdate(s.workers, w, Gone);
  }

  lemma {:induction false} RunConserves(s: State, steps: seq<Step>)
    requires Runs(s, steps) && s.value >= 0
    ensures Exec(s, steps).value + Inside(Exec(s, steps).workers) == s.value + Inside(s.workers)
    ensures Exec(s, steps).value >= 0
    decreases |steps|
  {
    if steps != [] {
      StepConserves(s, steps[0]);
      RunConserves(Next(s, steps[0]), steps[1..]);
    }
  }

  /** In every run, free slots and serving workers add up to the configured maximum, which lies between 1 and 256. */
  lemma Conservation(raw: Config, steps: seq<Step>)
    requires Runs(Init(raw), steps)
    ensures var s, max := Exec(Init(raw), steps), Sanitize(raw).maxInConnections;
      && 1 <= max <= MAX_INCONN
      && s.value + Inside(s.workers) == max
      && 0 <= Inside(s.workers) <= max
  {
    RunConserves(Init(raw), steps);
  }

  // ---- what becomes of connections ----

  function Connects(steps: seq<Step>): nat {
    if steps == [] then 0 else (if steps[0].Connect? then 1 else 0) + Connects(steps[1..])
  }

  function Spawns(steps: seq<Step>): nat {
    if steps == [] then 0 else (if steps[0].Spawn? then 1 else 0) + Spawns(steps[1..])
  }

  function Drops(steps: seq<Step>): nat {
    if steps == [] then 0 else (if steps[0].Drop? then 1 else 0) + Drops(steps[1..])
  }

  function InHand(s: State): nat {
    if s.server.Listening? then 0 else 1
  }

  /** Every connection gets a worker, is dropped, or is the one in hand, and workers come only from these. */
  lemma {:induction false} ConnectionsAccounted(s: State, steps: seq<Step>)
    requires Runs(s, steps)
    ensures InHand(s) + Connects(steps) == Spawns(steps) + Drops(steps) + InHand(Exec(s, steps))
    ensures |Exec(s, steps).workers| == |s.workers| + Spawns(steps)
    decreases |steps|
  {
    if steps != [] {
      ConnectionsAccounted(Next(s, steps[0]), steps[1..]);
    }
  }

  // ---- the wait for a free slot ----

  function PollCount(steps: seq<Step>): nat {
    if steps == [] then 0 else (if steps[0].Poll? then 1 else 0) + PollCount(steps[1..])
  }

  /** A connection waits for ten polls at most, whatever the workers do meanwhile. */
  lemma {:induction false} WaitIsBounded(s: State, steps: seq<Step>)
    requires Runs(s, steps) && (s.server.Polling? ==> s.server.n <= MAX_POLLS)
    requires forall i :: 0 <= i < |steps| ==> !steps[i].Connect?
    ensures PollCount(steps) <= match s.server case Polling(n) => MAX_POLLS + 1 - n case _ => 0
    decreases |steps|
  {
    if steps != [] {
      WaitIsBounded(Next(s, steps[0]), steps[1..]);
    }
  }

  function Polls(n: nat): seq<Step> {
    seq(n, i => Poll)
  }

  /** With a slot free, the first poll ends the wait: its count is not used up and no second poll is possible. */
  lemma SlotFreeNoWait(s: State)
    requires s.server.Listening? && s.value >= 1
    ensures Runs(s, [Connect, Poll, Spawn]) && !Runs(s, [Connect, Poll, Poll])
    ensures Exec(s, [Connect, Poll, Spawn]) == s.(workers := s.workers + [Arrived])
  {
    var polling := Next(s, Connect);
    var accepting := Next(polling, Poll);
    var one := [Connect, Poll, Spawn];
    var two := [Connect, Poll, Poll];
    assert one[1..] == [Poll, Spawn] && one[1..][1..] == [Spawn] && [Spawn][1..] == [];
    assert two[1..] == [Poll, Poll] && two[1..][1..] == [Poll];
    assert !Enabled(accepting, Poll) && !Runs(accepting, [Poll]) && !Runs(polling, [Poll, Poll]);
    assert Runs(accepting, [Spawn]) && Exec(accepting, [Spawn]) == Next(accepting, Spawn);
    assert Runs(polling, [Poll, Spawn]) && Exec(polling, [Poll, Spawn]) == Next(accepting, Spawn);
  }

  /** With no slot free, the polls run out and the server goes on to accept. */
  lemma {:induction false} WaitInVain(s: State)
    requires s.server.Polling? && s.server.n <= MAX_POLLS && s.value < 1
    ensures var steps := Polls(MAX_POLLS + 1 - s.server.n) + [Spawn];
      Runs(s, steps) && Exec(s, steps) == s.(workers := s.workers + [Arrived], server := Listening)
    decreases MAX_POLLS - s.server.n
  {
    var steps := Polls(MAX_POLLS + 1 - s.server.n) + [Spawn];
    var t := Next(s, Poll);
    if s.server.n < MAX_POLLS {
      WaitInVain(t);
      assert steps[1..] == Polls(MAX_POLLS + 1 - t.server.n) + [Spawn];
    } else {
      assert steps[1..] == [Spawn] && [Spawn][1..] == [];
    }
  }

  /** What the server does with one connection that finds no slot. */
  function Turn(): seq<Step> {
    [Connect] + (Polls(MAX_POLLS) + [Spawn])
  }

  function Turns(n: nat): seq<Step> {
    if n == 0 then [] else Turn() + Turns(n - 1)
  }

  lemma {:induction false} ExecConcat(s: State, first: seq<Step>, second: seq<Step>)
    requires Runs(s, first) && Runs(Exec(s, first), second)
    ensures Runs(s, first + second) && Exec(s, first + second) == Exec(Exec(s, first), second)
    decreases |first|
  {
    if first == [] {
      assert first + second == second;
    } else {
      ExecConcat(Next(s, first[0]), first[1..], second);
      assert (first + second)[1..] == first[1..] + second;
    }
  }

  lemma ExecCons(s: State, step: Step, rest: seq<Step>) returns (steps: seq<Step>)
    requires Enabled(s, step) && Runs(Next(s, step), rest)
    ensures Runs(s, steps) && Exec(s, steps) == Exec(Next(s, step), rest)
  {
    steps := [step] + rest;
    assert steps[1..] == rest;
  }

  /** Such states come up: as many connections as there are slots take them all. */
  lemma {:induction false} FillsUp(s: State) returns (steps: seq<Step>)
    requires s.server.Listening? && s.value >= 0
    ensures Runs(s, steps) && Exec(s, steps).server.Listening? && Exec(s, steps).value == 0
    decreases s.value
  {
    if s.value == 0 {
      steps := [];
    } else {
      var w := |s.workers|;
      var polling := Next(s, Connect);
      var accepting := Next(polling, Poll);
      var arrived := Next(accepting, Spawn);
      var serving := Next(arrived, Enter(w));
      steps := FillsUp(serving);
      steps := ExecCons(arrived, Enter(w), steps);
      steps := ExecCons(accepting, Spawn, steps);
      steps := ExecCons(polling, Poll, steps);
      steps := ExecCons(s, Connect, steps);
    }
  }

  /** The wait does not bound the threads: with no slot free and none ever freed, n connections still make n workers. */
  lemma {:induction false} SpawningIsUnbounded(s: State, n: nat)
    requires s.server.Listening? && s.value < 1
    ensures Runs(s, Turns(n))
    ensures Exec(s, Turns(n)) == s.(workers := s.workers + seq(n, i => Arrived))
    decreases n
  {
    if n > 0 {
      WaitInVain(Next(s, Connect));
      assert Turn()[1..] == Polls(MAX_POLLS) + [Spawn];
      var t := s.(workers := s.workers + [Arrived]);
      assert Runs(s, Turn()) && Exec(s, Turn()) == t;
      SpawningIsUnbounded(t, n - 1);
      ExecConcat(s, Turn(), Turns(n - 1));
    }
  }
}
