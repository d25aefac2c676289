/**
 * The life of host records as a state machine. A step is what one thread does to one
 * record under the vector mutex, so every interleaving of whole passes is a run, and
 * each callback reads the clock for itself.
 */
module Lifecycle {
  import opened Base
  import opened HostTable

  /** Everything that ever happened, in order. */
  datatype Event =
    | Hit(ip: Name, at: int)      // a log line matched
    | Remote(ip: Name, at: int, hr: HostRecord)   // a peer's record was inserted or merged
    | New(ip: Name)               // _do_action called with NEW
    | Removed(ip: Name)           // _do_action called with REMOVE
    | Marked(ip: Name)            // the remove flag was set
    | Forgotten(ip: Name)         // the record was freed

  datatype State = State(table: Table, log: seq<Event>, clock: int, stopped: bool, cfg: Config)

  datatype Step =
    | LocalHit(ip: Name, now: int)
    | RemoteAdd(hr: HostRecord, now: int)
    | Action(ip: Name, now: int)
    | MarkOne(ip: Name)
    | Purge(ip: Name)
    | Stop
    | Destroy(ip: Name)

  /** What the server worker hands to the table: not local, flagged or processed, its count from a 32-bit word. */
  predicate Normalised(hr: HostRecord) {
    hr.origin != LOCALHOST && hr.remove == 0 && hr.processed == 0 && -0x8000_0000 <= hr.occurrences <= INT32_MAX
  }

  predicate Enabled(s: State, step: Step) {
    match step
    case LocalHit(ip, now) => !s.stopped && IsAddress(ip) && s.clock <= now
    case RemoteAdd(hr, now) => !s.stopped && Normalised(hr) && IsAddress(hr.ipaddr) && s.clock <= now
    case Action(ip, now) => !s.stopped && ip in s.table && s.clock <= now
    case MarkOne(ip) => !s.stopped && ip in s.table
    case Purge(ip) => !s.stopped && ip in s.table && s.table[ip].remove != 0
    case Stop => true
    case Destroy(ip) => s.stopped && ip in s.table
  }

  function Init(cfg: Config, clock: int): State {
    State(map[], [], clock, false, cfg)
  }

  /** The removal callback followed by the free. */
  function Free(s: State, ip: Name): State
    requires ip in s.table
  {
    s.(table := s.table - {ip},
       log := (if s.table[ip].processed != 0 then s.log + [Removed(ip)] else s.log) + [Forgotten(ip)])
  }

  function ActionLog(log: seq<Event>, ip: Name, r: HostRecord, now: int): seq<Event> {
    if Fires(r) then log + [New(ip)] else if Stale(r, now) then log + [Marked(ip)] else log
  }

  function Next(s: State, step: Step): State
    requires Enabled(s, step)
  {
    match step
    case LocalHit(ip, now) =>
      s.(table := AddIp(s.table, ip, now, s.cfg), log := s.log + [Hit(ip, now)], clock := now)
    case RemoteAdd(hr, now) =>
      s.(table := AddRecord(s.table, hr, now), log := s.log + [Remote(hr.ipaddr, now, hr)], clock := now)
    case Action(ip, now) =>
      s.(table := s.table[ip := Act(s.table[ip], now)], log := ActionLog(s.log, ip, s.table[ip], now), clock := now)
    case MarkOne(ip) =>
      s.(table := s.table[ip := Mark(s.table[ip])], log := s.log + [Marked(ip)])
    case Purge(ip) => Free(s, ip)
    case Stop => s.(stopped := true)
    case Destroy(ip) => Free(s, ip)
  }

  predicate Runs(s: State, steps: seq<Step>)
    decreases |steps|
  {
    steps == [] || (Enabled(s, steps[0]) && Runs(Next(s, steps[0]), steps[1..]))
  }

  function Exec(s: State, steps: seq<Step>): State
    requires Runs(s, steps)
    decreases |steps|
  {
    if steps == [] then s else Exec(Next(s, steps[0]), steps[1..])
  }

  lemma {:induction false} ExecConcat(s: State, first: seq<Step>, second: seq<Step>)
    requires Runs(s, first) && Runs(Exec(s, first), second)
    ensures Runs(s, first + second)
    ensures Exec(s, first + second) == Exec(Exec(s, first), second)
    decreases |first|
  {
    if first == [] {
      assert first + second == second;
    } else {
      ExecConcat(Next(s, first[0]), first[1..], second);
      assert (first + second)[1..] == first[1..] + second;
    }
  }

  lemma ExecCons(s: State, step: Step, rest: seq<Step>)
    requires Enabled(s, step) && Runs(Next(s, step), rest)
    ensures Runs(s, [step] + rest) && Exec(s, [step] + rest) == Exec(Next(s, step), rest)
  {
    assert ([step] + rest)[1..] == rest;
  }

  // ---- reading the log ----

  datatype ActionKind = NEW | REMOVE

  predicate Alternates(a: seq<ActionKind>) {
    forall i :: 0 <= i < |a| ==> a[i] == if i % 2 == 0 then NEW else REMOVE
  }

  /** What the log says about one IP. */
  datatype History = History(
    actions: seq<ActionKind>,   // the actions called for it
    hits: seq<int>,             // its local hits since its record was last absent
    present: bool,              // its record is in the table
    touch: int,                 // when something last reached the record that was already there, or 0
    last: Option<HostRecord>,   // the last peer's record that reached it since it was last absent
    marked: bool,               // it was marked since it was last absent or overwritten by a peer's record
    latest: int)                // its latest hit in the whole run, or 0

  function Extend(h: History, e: Event, ip: Name): History {
    if e.ip != ip then h else
      match e
      case Hit(_, at) =>
        h.(hits := h.hits + [at], latest := if h.latest < at then at else h.latest,
           touch := if h.present then at else 0, present := true)
      case Remote(_, at, hr) =>
        h.(last := Some(hr), marked := false, touch := if h.present then at else 0, present := true)
      case New(_) => h.(actions := h.actions + [NEW])
      case Removed(_) => h.(actions := h.actions + [REMOVE])
      case Marked(_) => h.(marked := true)
      case Forgotten(_) => h.(hits := [], last := None, marked := false, present := false, touch := 0)
  }

  function Read(log: seq<Event>, ip: Name): History {
    if log == [] then History([], [], false, 0, None, false, 0)
    else Extend(Read(log[..|log| - 1], ip), log[|log| - 1], ip)
  }

  /** How many of the hits fall in the time interval that starts at `first`. */
  function InWindow(hits: seq<int>, first: int, interval: int): nat {
    if hits == [] then 0 else
      var n := |hits| - 1;
      InWindow(hits[..n], first, interval) + if hits[n] - first <= interval then 1 else 0
  }

  /** The window a record counts in, and the count in it, before any wrap-around. */
  datatype Tally = Tally(present: bool, first: int, interval: int, count: int)

  function Tick(first: int, interval: int, at: int): int {
    if at - first <= interval then 1 else 0
  }

  /**
   * A first hit opens a window and counts as one, a first peer's record brings its window and count. After
   * that a hit counts if it is in the window; a peer's record brings its window, adds its count, and counts
   * once more if it arrives in its window.
   */
  function Score(t: Tally, e: Event, ip: Name, interval: int): Tally {
    if e.ip != ip then t else
      match e
      case Hit(_, at) =>
        if t.present then t.(count := t.count + Tick(t.first, t.interval, at)) else Tally(true, at, interval, 1)
      case Remote(_, at, hr) =>
        Tally(true, hr.firstseen, hr.timeInterval,
          if t.present then t.count + hr.occurrences + Tick(hr.firstseen, hr.timeInterval, at) else hr.occurrences)
      case Forgotten(_) => Tally(false, 0, 0, 0)
      case _ => t
  }

  function Tallied(log: seq<Event>, ip: Name, interval: int): Tally {
    if log == [] then Tally(false, 0, 0, 0)
    else Score(Tallied(log[..|log| - 1], ip, interval), log[|log| - 1], ip, interval)
  }

  // ---- the invariant, one IP at a time ----

  /** The counters of a record that only local hits have touched. */
  ghost predicate LocalRecord(r: HostRecord, hits: seq<int>, cfg: Config) {
    && |hits| > 0
    && r.firstseen == hits[0]
    && r.lastseen == (if |hits| == 1 then 0 else hits[|hits| - 1])
    && r.timeInterval == cfg.timeInterval
    && r.purgeAfter == cfg.purgeAfter
    && r.actionThreshold == cfg.actionThreshold
    && r.occurrences == Wrap32(InWindow(hits, hits[0], cfg.timeInterval))
  }

  /** The settings of a record that a peer's record has overwritten. */
  ghost predicate RemoteRecord(r: HostRecord, last: HostRecord) {
    && r.origin == last.origin
    && r.firstseen == last.firstseen
    && r.timeInterval == last.timeInterval
    && r.purgeAfter == last.purgeAfter
    && r.actionThreshold == last.actionThreshold
  }

  ghost predicate PresentFits(r: HostRecord, h: History, ip: Name, cfg: Config) {
    && r.ipaddr == ip && IsAddress(ip)
    && 0 <= r.remove <= 1 && 0 <= r.processed <= 1
    && (|h.actions| % 2 == 1 <==> r.processed != 0)
    && (r.remove != 0 <==> h.marked)
    && (r.origin == LOCALHOST <==> h.last.None?)
    && (r.origin == LOCALHOST ==> LocalRecord(r, h.hits, cfg))
    && h.present && (h.last.Some? ==> RemoteRecord(r, h.last.value))
    && r.lastseen == (if h.touch != 0 then h.touch else if h.last.Some? then h.last.value.lastseen else 0)
  }

  ghost predicate AbsentFits(h: History) {
    |h.actions| % 2 == 0 && h.hits == [] && h.last.None? && !h.marked && !h.present
  }

  /** The clock is past every hit, and a record's last hit is the IP's latest. */
  ghost predicate TimesFit(h: History, clock: int) {
    && 0 < clock
    && h.latest <= clock
    && (h.hits != [] ==> h.hits[|h.hits| - 1] == h.latest && 0 < h.latest && 0 < h.hits[0] <= clock)
  }

  ghost predicate Inv(s: State, ip: Name) {
    var h := Read(s.log, ip);
    && s.cfg.Sane()
    && Alternates(h.actions)
    && TimesFit(h, s.clock)
    && (if ip in s.table then PresentFits(s.table[ip], h, ip, s.cfg) else AbsentFits(h))
  }

  // ---- how one event changes each reading ----

  lemma Append(log: seq<Event>, e: Event, ip: Name)
    ensures Read(log + [e], ip) == Extend(Read(log, ip), e, ip)
  {
    assert (log + [e])[..|log|] == log;
  }

  lemma TallyAppend(log: seq<Event>, e: Event, ip: Name, interval: int)
    ensures Tallied(log + [e], ip, interval) == Score(Tallied(log, ip, interval), e, ip, interval)
  {
    assert (log + [e])[..|log|] == log;
  }

  lemma WindowAppend(hits: seq<int>, t: int, first: int, interval: int)
    ensures InWindow(hits + [t], first, interval) ==
      InWindow(hits, first, interval) + if t - first <= interval then 1 else 0
  {
    assert (hits + [t])[..|hits|] == hits;
  }

  lemma WrapSucc(n: int)
    ensures Wrap32(Wrap32(n) + 1) == Wrap32(n + 1)
  {
  }

  lemma WrapAdd(m: int, n: int)
    ensures Wrap32(Wrap32(m) + n) == Wrap32(m + n)
  {
  }

  lemma WrapBelow(n: nat)
    ensures Wrap32(n) <= n
  {
  }

  // ---- every step keeps the invariant ----

  lemma FirstHit(ip: Name, now: int, cfg: Config)
    requires cfg.Sane()
    ensures LocalRecord(FreshLocal(ip, now, cfg), [now], cfg)
  {
    WindowAppend([], now, now, cfg.timeInterval);
    assert [] + [now] == [now];
  }

  lemma FurtherHit(r: HostRecord, hits: seq<int>, now: int, cfg: Config)
    requires LocalRecord(r, hits, cfg)
    ensures LocalRecord(Bump(r, now), hits + [now], cfg)
  {
    WindowAppend(hits, now, hits[0], cfg.timeInterval);
    WrapSucc(InWindow(hits, hits[0], cfg.timeInterval));
  }

  /** What happens to other IPs does not matter. */
  lemma UnrelatedKeepsInv(s: State, t: State, ip: Name)
    requires Inv(s, ip) && t.cfg == s.cfg && s.clock <= t.clock && Read(t.log, ip) == Read(s.log, ip)
    requires (ip in s.table <==> ip in t.table) && (ip in s.table ==> t.table[ip] == s.table[ip])
    ensures Inv(t, ip)
  {
  }

  lemma HitKeepsInv(s: State, step: Step, ip: Name)
    requires Inv(s, ip) && step.LocalHit? && Enabled(s, step)
    ensures Inv(Next(s, step), ip)
  {
    Append(s.log, Hit(step.ip, step.now), ip);
    var hits := Read(s.log, ip).hits;
    if step.ip == ip {
      if ip !in s.table {
        FirstHit(ip, step.now, s.cfg);
        assert hits + [step.now] == [step.now];
      } else if s.table[ip].origin == LOCALHOST {
        FurtherHit(s.table[ip], hits, step.now, s.cfg);
      }
    }
  }

  lemma RemoteKeepsInv(s: State, step: Step, ip: Name)
    requires Inv(s, ip) && step.RemoteAdd? && Enabled(s, step)
    ensures Inv(Next(s, step), ip)
  {
    Append(s.log, Remote(step.hr.ipaddr, step.now, step.hr), ip);
  }

  lemma ActionFits(r: HostRecord, h: History, ip: Name, now: int, cfg: Config)
    requires PresentFits(r, h, ip, cfg) && Alternates(h.actions)
    ensures var g := if Fires(r) then Extend(h, New(ip), ip)
                     else if Stale(r, now) then Extend(h, Marked(ip), ip) else h;
      PresentFits(Act(r, now), g, ip, cfg) && Alternates(g.actions)
  {
  }

  lemma ActionKeepsInv(s: State, step: Step, ip: Name)
    requires Inv(s, ip) && step.Action? && Enabled(s, step)
    ensures Inv(Next(s, step), ip)
  {
    Append(s.log, New(step.ip), ip);
    Append(s.log, Marked(step.ip), ip);
    if step.ip == ip {
      ActionFits(s.table[ip], Read(s.log, ip), ip, step.now, s.cfg);
    } else {
      UnrelatedKeepsInv(s, Next(s, step), ip);
    }
  }

  lemma MarkKeepsInv(s: State, step: Step, ip: Name)
    requires Inv(s, ip) && step.MarkOne? && Enabled(s, step)
    ensures Inv(Next(s, step), ip)
  {
    Append(s.log, Marked(step.ip), ip);
  }

  lemma FreeKeepsInv(s: State, gone: Name, ip: Name)
    requires Inv(s, ip) && gone in s.table
    ensures Inv(Free(s, gone), ip)
  {
    var log := if s.table[gone].processed != 0 then s.log + [Removed(gone)] else s.log;
    Append(s.log, Removed(gone), ip);
    Append(log, Forgotten(gone), ip);
    assert gone == ip ==> AbsentFits(Read(log + [Forgotten(gone)], ip));
  }

  lemma StepKeepsInv(s: State, step: Step, ip: Name)
    requires Inv(s, ip) && Enabled(s, step)
    ensures Inv(Next(s, step), ip)
  {
    match step
    case LocalHit(_, _) => HitKeepsInv(s, step, ip);
    case RemoteAdd(_, _) => RemoteKeepsInv(s, step, ip);
    case Action(_, _) => ActionKeepsInv(s, step, ip);
    case MarkOne(_) => MarkKeepsInv(s, step, ip);
    case Purge(gone) => FreeKeepsInv(s, gone, ip);
    case Stop =>
    case Destroy(gone) => FreeKeepsInv(s, gone, ip);
  }

  lemma {:induction false} RunKeepsInv(s: State, steps: seq<Step>, ip: Name)
    requires Inv(s, ip) && Runs(s, steps)
    ensures Inv(Exec(s, steps), ip)
    decreases |steps|
  {
    if steps != [] {
      StepKeepsInv(s, steps[0], ip);
      RunKeepsInv(Next(s, steps[0]), steps[1..], ip);
    }
  }

  // ---- the count of a record, whatever reached it ----

  predicate Tallies(r: HostRecord, t: Tally) {
    t.present && r.firstseen == t.first && r.timeInterval == t.interval && r.occurrences == Wrap32(t.count)
  }

  ghost predicate TallyInv(s: State, ip: Name) {
    var t := Tallied(s.log, ip, s.cfg.timeInterval);
    if ip in s.table then Tallies(s.table[ip], t) else !t.present
  }

  lemma BumpTallies(r: HostRecord, t: Tally, ip: Name, now: int, interval: int)
    requires Tallies(r, t)
    ensures Tallies(Bump(r, now), Score(t, Hit(ip, now), ip, interval))
  {
    WrapAdd(t.count, 1);
  }

  lemma MergeTallies(prev: HostRecord, t: Tally, hr: HostRecord, now: int, interval: int)
    requires Tallies(prev, t)
    ensures Tallies(Merge(prev, hr, now), Score(t, Remote(hr.ipaddr, now, hr), hr.ipaddr, interval))
  {
    WrapAdd(t.count, hr.occurrences);
    WrapAdd(t.count + hr.occurrences, 1);
  }

  lemma AddsKeepTally(s: State, step: Step, ip: Name)
    requires TallyInv(s, ip) && Enabled(s, step) && (step.LocalHit? || step.RemoteAdd?)
    ensures TallyInv(Next(s, step), ip)
  {
    var t, interval := Tallied(s.log, ip, s.cfg.timeInterval), s.cfg.timeInterval;
    if step.LocalHit? {
      TallyAppend(s.log, Hit(step.ip, step.now), ip, interval);
      if step.ip == ip && ip in s.table {
        BumpTallies(s.table[ip], t, ip, step.now, interval);
      }
    } else {
      TallyAppend(s.log, Remote(step.hr.ipaddr, step.now, step.hr), ip, interval);
      if step.hr.ipaddr == ip && ip in s.table {
        MergeTallies(s.table[ip], t, step.hr, step.now, interval);
      }
    }
  }

  lemma FreeKeepsTally(s: State, gone: Name, ip: Name)
    requires TallyInv(s, ip) && gone in s.table
    ensures TallyInv(Free(s, gone), ip)
  {
    var t, interval := Tallied(s.log, ip, s.cfg.timeInterval), s.cfg.timeInterval;
    var log := if s.table[gone].processed != 0 then s.log + [Removed(gone)] else s.log;
    TallyAppend(s.log, Removed(gone), ip, interval);
    assert Tallied(log, ip, interval) == t;
    TallyAppend(log, Forgotten(gone), ip, interval);
    assert Tallied(Free(s, gone).log, ip, interval) == Score(t, Forgotten(gone), ip, interval);
  }

  lemma OthersKeepTally(s: State, step: Step, ip: Name)
    requires TallyInv(s, ip) && Enabled(s, step) && !step.LocalHit? && !step.RemoteAdd?
    ensures TallyInv(Next(s, step), ip)
  {
    match step
    case Action(i, _) =>
      TallyAppend(s.log, New(i), ip, s.cfg.timeInterval);
      TallyAppend(s.log, Marked(i), ip, s.cfg.timeInterval);
    case MarkOne(i) => TallyAppend(s.log, Marked(i), ip, s.cfg.timeInterval);
    case Purge(gone) => FreeKeepsTally(s, gone, ip);
    case Destroy(gone) => FreeKeepsTally(s, gone, ip);
    case Stop =>
  }

  lemma {:induction false} RunKeepsTally(s: State, steps: seq<Step>, ip: Name)
    requires TallyInv(s, ip) && Runs(s, steps)
    ensures TallyInv(Exec(s, steps), ip)
    decreases |steps|
  {
    if steps != [] {
      if steps[0].LocalHit? || steps[0].RemoteAdd? {
        AddsKeepTally(s, steps[0], ip);
      } else {
        OthersKeepTally(s, steps[0], ip);
      }
      RunKeepsTally(Next(s, steps[0]), steps[1..], ip);
    }
  }

  // ---- what every run guarantees ----

  ghost predicate Reachable(s: State) {
    exists cfg: Config, clock, steps ::
      cfg.Sane() && 0 < clock && Runs(Init(cfg, clock), steps) && s == Exec(Init(cfg, clock), steps)
  }

  lemma ReachableInv(s: State, ip: Name)
    requires Reachable(s)
    ensures Inv(s, ip)
  {
    var cfg: Config, clock, steps :|
      cfg.Sane() && 0 < clock && Runs(Init(cfg, clock), steps) && s == Exec(Init(cfg, clock), steps);
    RunKeepsInv(Init(cfg, clock), steps, ip);
  }

  /** Every record's counter is its tally in 32 bits, over the window it was last given. */
  lemma CountIsTally(s: State, ip: Name)
    requires Reachable(s) && ip in s.table
    ensures Tallies(s.table[ip], Tallied(s.log, ip, s.cfg.timeInterval))
  {
    var cfg: Config, clock, steps :|
      cfg.Sane() && 0 < clock && Runs(Init(cfg, clock), steps) && s == Exec(Init(cfg, clock), steps);
    RunKeepsTally(Init(cfg, clock), steps, ip);
  }

  lemma ReachableExec(s: State, steps: seq<Step>)
    requires Reachable(s) && Runs(s, steps)
    ensures Reachable(Exec(s, steps))
  {
    var cfg: Config, clock, before :|
      cfg.Sane() && 0 < clock && Runs(Init(cfg, clock), before) && s == Exec(Init(cfg, clock), before);
    ExecConcat(Init(cfg, clock), before, steps);
  }

  /** NEW and REMOVE alternate for every IP, starting with NEW, and shutdown matches every NEW. */
  lemma ActionsAlternate(s: State, ip: Name)
    requires Reachable(s)
    ensures Alternates(Read(s.log, ip).actions)
    ensures |Read(s.log, ip).actions| % 2 == 1 <==> ip in s.table && s.table[ip].processed != 0
    ensures s.stopped && s.table == map[] ==> |Read(s.log, ip).actions| % 2 == 0
  {
    ReachableInv(s, ip);
  }

  /** A record counts as local exactly while no peer's record has touched it since its insertion. */
  lemma LocalMeansUntouched(s: State, ip: Name)
    requires Reachable(s) && ip in s.table
    ensures s.table[ip].origin == LOCALHOST <==> Read(s.log, ip).last.None?
    ensures s.table[ip].origin == LOCALHOST ==> Read(s.log, ip).hits != []
  {
    ReachableInv(s, ip);
  }

  /** A local record counts exactly the hits in its window, as a 32-bit counter. */
  lemma LocalCount(s: State, ip: Name)
    requires Reachable(s) && ip in s.table && s.table[ip].origin == LOCALHOST
    ensures var hits := Read(s.log, ip).hits;
      && hits != []
      && s.table[ip].firstseen == hits[0]
      && s.table[ip].occurrences == Wrap32(InWindow(hits, hits[0], s.cfg.timeInterval))
  {
    ReachableInv(s, ip);
  }

  /** A local NEW needs at least the threshold of hits inside the window, even if the counter wraps. */
  lemma LocalNewNeedsThreshold(s: State, step: Step)
    requires Reachable(s) && step.Action? && Enabled(s, step)
    requires s.table[step.ip].origin == LOCALHOST
    requires Read(Next(s, step).log, step.ip).actions != Read(s.log, step.ip).actions
    ensures var hits := Read(s.log, step.ip).hits;
      && hits != []
      && InWindow(hits, hits[0], s.cfg.timeInterval) >= s.cfg.actionThreshold
  {
    ReachableInv(s, step.ip);
    var hits := Read(s.log, step.ip).hits;
    WrapBelow(InWindow(hits, hits[0], s.cfg.timeInterval));
    Append(s.log, Marked(step.ip), step.ip);
  }

  predicate HitAt(e: Event, ip: Name) {
    e.Hit? && e.ip == ip
  }

  /** The latest hit is one of the hits, and none is later. */
  lemma {:induction false} LatestIsLatest(log: seq<Event>, ip: Name)
    ensures forall i :: 0 <= i < |log| && HitAt(log[i], ip) ==> log[i].at <= Read(log, ip).latest
    ensures Read(log, ip).latest > 0 ==>
      exists i :: 0 <= i < |log| && HitAt(log[i], ip) && log[i].at == Read(log, ip).latest
  {
    if log != [] {
      var n := |log| - 1;
      LatestIsLatest(log[..n], ip);
      assert forall i :: 0 <= i < n ==> log[i] == log[..n][i];
      if Read(log, ip).latest > 0 && Read(log, ip).latest == Read(log[..n], ip).latest {
        var i :| 0 <= i < n && HitAt(log[..n][i], ip) && log[..n][i].at == Read(log, ip).latest;
        assert HitAt(log[i], ip);
      } else if Read(log, ip).latest > 0 {
        assert HitAt(log[n], ip);
      }
    }
  }

  /** Whether a visit calls the action, by what the log says about the IP. */
  predicate ShouldFire(h: History, t: Tally, cfg: Config) {
    && |h.actions| % 2 == 0
    && Wrap32(t.count) >= if h.last.Some? then h.last.value.actionThreshold else cfg.actionThreshold
  }

  /** When the IP was last heard of: by a hit, or for a peer's record since it came, or as the peer says. */
  function LastHeard(h: History): int {
    if h.last.None? then h.latest
    else if h.touch != 0 then h.touch
    else if h.last.value.lastseen != 0 then h.last.value.lastseen
    else h.last.value.firstseen
  }

  predicate Expired(h: History, now: int, cfg: Config) {
    now - LastHeard(h) > if h.last.Some? then h.last.value.purgeAfter else cfg.purgeAfter
  }

  lemma VisitFits(r: HostRecord, h: History, t: Tally, ip: Name, now: int, cfg: Config, clock: int)
    requires PresentFits(r, h, ip, cfg) && TimesFit(h, clock) && Tallies(r, t)
    ensures Fires(r) <==> ShouldFire(h, t, cfg)
    ensures Stale(r, now) <==> Expired(h, now, cfg)
  {
  }

  /** What an action visit does, by what the log says: to the log, to the record, and to nothing else. */
  lemma VisitExactly(s: State, step: Step)
    requires Reachable(s) && step.Action? && Enabled(s, step)
    ensures var h, t, after := Read(s.log, step.ip), Tallied(s.log, step.ip, s.cfg.timeInterval), Next(s, step);
      && Read(after.log, step.ip).actions == (if ShouldFire(h, t, s.cfg) then h.actions + [NEW] else h.actions)
      && step.ip in after.table
      && (after.table[step.ip].processed != 0 <==> ShouldFire(h, t, s.cfg) || |h.actions| % 2 == 1)
      && (after.table[step.ip].remove != 0 <==>
          h.marked || (!ShouldFire(h, t, s.cfg) && Expired(h, step.now, s.cfg)))
    ensures var r, a := s.table[step.ip], Next(s, step).table[step.ip];
      Next(s, step).table == s.table[step.ip := r.(remove := a.remove, processed := a.processed)]
  {
    var h, t := Read(s.log, step.ip), Tallied(s.log, step.ip, s.cfg.timeInterval);
    ReachableInv(s, step.ip);
    CountIsTally(s, step.ip);
    VisitFits(s.table[step.ip], h, t, step.ip, step.now, s.cfg, s.clock);
    Append(s.log, New(step.ip), step.ip);
    Append(s.log, Marked(step.ip), step.ip);
  }

  /**
   * The action pass flags a local record exactly when it does not fire and every hit of the run is older than
   * the purge time.
   */
  lemma PurgeSafety(s: State, step: Step)
    requires Reachable(s) && step.Action? && Enabled(s, step)
    requires s.table[step.ip].origin == LOCALHOST && s.table[step.ip].remove == 0
    ensures var r := s.table[step.ip];
      Next(s, step).table[step.ip].remove != 0 <==>
        && (r.processed != 0 || r.occurrences < r.actionThreshold)
        && forall i :: 0 <= i < |s.log| && HitAt(s.log[i], step.ip) ==> step.now - s.log[i].at > s.cfg.purgeAfter
    ensures Next(s, step).table[step.ip].remove != 0 ==>
      Read(Next(s, step).log, step.ip).actions == Read(s.log, step.ip).actions
  {
    ReachableInv(s, step.ip);
    LatestIsLatest(s.log, step.ip);
    Append(s.log, Marked(step.ip), step.ip);
  }

  /** A record that a peer has overwritten runs under the peer's settings, and by its clock until touched here. */
  lemma RemoteSettings(s: State, ip: Name)
    requires Reachable(s) && ip in s.table && s.table[ip].origin != LOCALHOST
    ensures var h := Read(s.log, ip);
      && h.last.Some? && RemoteRecord(s.table[ip], h.last.value)
      && s.table[ip].lastseen == if h.touch != 0 then h.touch else h.last.value.lastseen
  {
    ReachableInv(s, ip);
  }

  /**
   * Whatever its origin, a record that was reached here is flagged exactly when it does not fire and its purge
   * time has passed since.
   */
  lemma TouchedIsNotPurged(s: State, step: Step)
    requires Reachable(s) && step.Action? && Enabled(s, step)
    requires s.table[step.ip].remove == 0 && Read(s.log, step.ip).touch != 0
    ensures var r := s.table[step.ip];
      Next(s, step).table[step.ip].remove != 0 <==>
        && (r.processed != 0 || r.occurrences < r.actionThreshold)
        && step.now - Read(s.log, step.ip).touch > r.purgeAfter
  {
    ReachableInv(s, step.ip);
  }

  /** The flag stands for a mark since the record was inserted or last overwritten by a peer's record. */
  lemma FlagIsMark(s: State, ip: Name)
    requires Reachable(s) && ip in s.table
    ensures s.table[ip].remove != 0 <==> Read(s.log, ip).marked
  {
    ReachableInv(s, ip);
  }

  /** Maintenance can free a record exactly when it is marked. */
  lemma OnlyMarkedArePurged(s: State, ip: Name)
    requires Reachable(s)
    ensures Enabled(s, Purge(ip)) <==> !s.stopped && ip in s.table && Read(s.log, ip).marked
  {
    ReachableInv(s, ip);
  }

  /** While the threads run, a record leaves the table only if it is marked. */
  lemma FreedWhileRunning(s: State, step: Step, ip: Name)
    requires Reachable(s) && Enabled(s, step) && !s.stopped && ip in s.table && ip !in Next(s, step).table
    ensures Read(s.log, ip).marked && step == Purge(ip)
  {
    ReachableInv(s, ip);
  }

  lemma ShutdownStep(s: State, step: Step, ip: Name)
    requires Inv(s, ip) && s.stopped && Enabled(s, step)
    ensures var before, t := Read(s.log, ip), Next(s, step);
      && t.stopped && (ip in t.table ==> ip in s.table && t.table[ip] == s.table[ip])
      && Read(t.log, ip).actions ==
         (if ip in s.table && ip !in t.table && |before.actions| % 2 == 1
          then before.actions + [REMOVE] else before.actions)
  {
    if step.Destroy? {
      var log := if s.table[step.ip].processed != 0 then s.log + [Removed(step.ip)] else s.log;
      Append(s.log, Removed(step.ip), ip);
      Append(log, Forgotten(step.ip), ip);
    }
  }

  /** After the stop nothing is inserted or called NEW; all that can still happen to an IP is its one REMOVE. */
  lemma {:induction false} ShutdownOnlyRemoves(s: State, steps: seq<Step>, ip: Name)
    requires Inv(s, ip) && s.stopped && Runs(s, steps)
    ensures var before, after := Read(s.log, ip), Read(Exec(s, steps).log, ip);
      && Exec(s, steps).stopped && (ip in Exec(s, steps).table ==> ip in s.table)
      && after.actions ==
         (if ip in s.table && ip !in Exec(s, steps).table && |before.actions| % 2 == 1
          then before.actions + [REMOVE] else before.actions)
      && (ip in Exec(s, steps).table ==> Exec(s, steps).table[ip] == s.table[ip])
    decreases |steps|
  {
    if steps != [] {
      var t := Next(s, steps[0]);
      StepKeepsInv(s, steps[0], ip);
      ShutdownStep(s, steps[0], ip);
      ShutdownOnlyRemoves(t, steps[1..], ip);
    }
  }

  // ---- a mark outlives later hits ----

  /** Only a peer's record takes a mark back: local hits, however many and however recent, do not. */
  lemma {:induction false} HitsDoNotUnmark(s: State, steps: seq<Step>, ip: Name)
    requires Runs(s, steps) && ip in s.table && s.table[ip].remove != 0
    requires forall i :: 0 <= i < |steps| ==>
      steps[i] != Purge(ip) && steps[i] != Destroy(ip) && (steps[i].RemoteAdd? ==> steps[i].hr.ipaddr != ip)
    ensures ip in Exec(s, steps).table && Exec(s, steps).table[ip].remove != 0
    decreases |steps|
  {
    if steps != [] {
      HitsDoNotUnmark(Next(s, steps[0]), steps[1..], ip);
    }
  }

  /** A marked record is freed even if it was hit at this very moment. */
  lemma PurgedWhenJustHit(s: State, ip: Name, now: int)
    requires Reachable(s) && !s.stopped && s.clock <= now
    requires ip in s.table && s.table[ip].origin == LOCALHOST && s.table[ip].remove != 0
    ensures var hit, purge := LocalHit(ip, now), Purge(ip);
      && Runs(s, [hit, purge])
      && Next(s, hit).table[ip].lastseen == now && Read(Next(s, hit).log, ip).latest == now
      && ip !in Exec(s, [hit, purge]).table
  {
    ReachableInv(s, ip);
    var hit, purge := LocalHit(ip, now), Purge(ip);
    Append(s.log, Hit(ip, now), ip);
    ExecCons(Next(s, hit), purge, []);
    ExecCons(s, hit, [purge]);
    assert [hit] + [purge] == [hit, purge] && [purge] + [] == [purge];
  }

  /** Such a run exists from the start under every configuration: hit, action, mark, hit, purge. */
  lemma JustHitPurgeHappens(cfg: Config, ip: Name)
    requires cfg.Sane() && IsAddress(ip)
    ensures var late := 2 + cfg.purgeAfter;
      var steps := [LocalHit(ip, 1), Action(ip, late), Action(ip, late), LocalHit(ip, late), Purge(ip)];
      Runs(Init(cfg, 1), steps) && ip !in Exec(Init(cfg, 1), steps).table
  {
    var late, s0 := 2 + cfg.purgeAfter, Init(cfg, 1);
    var s1 := Next(s0, LocalHit(ip, 1));
    var s2 := Next(s1, Action(ip, late));
    var s3 := Next(s2, Action(ip, late));
    assert s3.table[ip].remove != 0;
    var s4 := Next(s3, LocalHit(ip, late));
    ExecCons(s4, Purge(ip), []);
    ExecCons(s3, LocalHit(ip, late), [Purge(ip)] + []);
    ExecCons(s2, Action(ip, late), [LocalHit(ip, late)] + ([Purge(ip)] + []));
    var last := [Action(ip, late), LocalHit(ip, late), Purge(ip)];
    assert [Action(ip, late)] + ([LocalHit(ip, late)] + ([Purge(ip)] + [])) == last;
    ExecCons(s1, Action(ip, late), last);
    ExecCons(s0, LocalHit(ip, 1), [Action(ip, late)] + last);
    assert [LocalHit(ip, 1)] + ([Action(ip, late)] + last) ==
           [LocalHit(ip, 1), Action(ip, late), Action(ip, late), LocalHit(ip, late), Purge(ip)];
  }

  predicate IsHitOn(step: Step, ip: Name) {
    step.LocalHit? && step.ip == ip
  }

  lemma StepHits(s: State, step: Step, ip: Name)
    requires Enabled(s, step)
    ensures s.log <= Next(s, step).log && s.clock <= Next(s, step).clock
    ensures forall i :: |s.log| <= i < |Next(s, step).log| && HitAt(Next(s, step).log[i], ip) ==>
      IsHitOn(step, ip) && Next(s, step).log[i].at >= s.clock
    ensures IsHitOn(step, ip) ==> |Next(s, step).log| == |s.log| + 1 && HitAt(Next(s, step).log[|s.log|], ip)
  {
  }

  /** A run only adds to the log; what it adds on an IP are its local hits, at or after the clock. */
  lemma {:induction false} RunHits(s: State, steps: seq<Step>, ip: Name)
    requires Runs(s, steps)
    ensures s.log <= Exec(s, steps).log
    ensures forall i :: |s.log| <= i < |Exec(s, steps).log| && HitAt(Exec(s, steps).log[i], ip) ==>
      Exec(s, steps).log[i].at >= s.clock
    ensures (exists i :: |s.log| <= i < |Exec(s, steps).log| && HitAt(Exec(s, steps).log[i], ip)) <==>
      exists i :: 0 <= i < |steps| && IsHitOn(steps[i], ip)
    decreases |steps|
  {
    if steps != [] {
      var t := Next(s, steps[0]);
      RunHits(t, steps[1..], ip);
      assert s.log <= t.log;
      StepHits(s, steps[0], ip);
      var log := Exec(s, steps).log;
      forall i | |s.log| <= i < |log| && HitAt(log[i], ip)
        ensures log[i].at >= s.clock && exists j :: 0 <= j < |steps| && IsHitOn(steps[j], ip)
      {
        if i < |t.log| {
          assert log[i] == t.log[i] && IsHitOn(steps[0], ip);
        } else {
          var j :| 0 <= j < |steps[1..]| && IsHitOn(steps[1..][j], ip);
          assert steps[j + 1] == steps[1..][j];
        }
      }
      forall j | 0 <= j < |steps| && IsHitOn(steps[j], ip)
        ensures exists i :: |s.log| <= i < |log| && HitAt(log[i], ip)
      {
        if j == 0 {
          assert t.log[|s.log|] == log[|s.log|] && HitAt(log[|s.log|], ip);
        } else {
          assert steps[1..][j - 1] == steps[j];
          var i :| |t.log| <= i < |log| && HitAt(log[i], ip);
        }
      }
    }
  }

  /**
   * When a local record marked by the action pass is freed, its hits are all stale exactly if no hit came
   * between the mark and the purge; nothing else in the run matters.
   */
  lemma StaleExactlyIfNotHitSince(s: State, mark: Step, steps: seq<Step>)
    requires Reachable(s) && mark.Action? && Enabled(s, mark)
    requires s.table[mark.ip].origin == LOCALHOST && s.table[mark.ip].remove == 0
    requires Next(s, mark).table[mark.ip].remove != 0 && Runs(Next(s, mark), steps)
    ensures var log := Exec(Next(s, mark), steps).log;
      (forall i :: 0 <= i < |log| && HitAt(log[i], mark.ip) ==> mark.now - log[i].at > s.cfg.purgeAfter) <==>
        forall i :: 0 <= i < |steps| ==> !IsHitOn(steps[i], mark.ip)
  {
    var t := Next(s, mark);
    var log := Exec(t, steps).log;
    PurgeSafety(s, mark);
    ReachableInv(s, mark.ip);
    RunHits(t, steps, mark.ip);
    assert t.log == s.log + [Marked(mark.ip)];
    assert forall i :: 0 <= i < |s.log| ==> log[i] == s.log[i];
    assert !HitAt(log[|s.log|], mark.ip);
    if i :| |t.log| <= i < |log| && HitAt(log[i], mark.ip) {
      assert mark.now - log[i].at <= 0;
    }
  }

  // ---- records received from peers ----

  /** Merging keeps the record at or above the threshold exactly when the 32-bit sum does not overflow. */
  lemma MergeKeepsThreshold(prev: HostRecord, hr: HostRecord, now: int)
    requires 1 <= hr.actionThreshold <= hr.occurrences <= INT32_MAX
    requires -0x8000_0000 <= prev.occurrences <= INT32_MAX
    ensures var sum := hr.occurrences + prev.occurrences + if now - hr.firstseen <= hr.timeInterval then 1 else 0;
      Merge(prev, hr, now).occurrences >= Merge(prev, hr, now).actionThreshold <==>
        hr.actionThreshold <= sum <= INT32_MAX
  {
    WrapSucc(hr.occurrences + prev.occurrences);
  }

  /** Two counts in range whose sum is not: the merged record drops below its threshold and will not fire. */
  lemma MergeCanOverflow(prev: HostRecord, hr: HostRecord)
    requires prev.occurrences == 0x4000_0000 && hr.occurrences == 0x4000_0000 && hr.actionThreshold == 3
    requires prev.processed == 0 && hr.firstseen == 0 && hr.timeInterval == 60
    ensures Merge(prev, hr, 100).occurrences == -0x8000_0000 && !Due(Merge(prev, hr, 100))
  {
  }

  predicate Due(r: HostRecord) {
    r.processed != 0 || r.occurrences >= r.actionThreshold
  }

  /** What one step adds to an IP's record keeps the count inside a signed 32-bit integer. */
  predicate NoOverflow(s: State, step: Step, ip: Name)
    requires Enabled(s, step)
  {
    ip in s.table ==>
      var r := s.table[ip];
      match step
      case LocalHit(i, now) => i == ip && now - r.firstseen <= r.timeInterval ==> r.occurrences < INT32_MAX
      case RemoteAdd(hr, now) => hr.ipaddr == ip ==>
        && 0 <= r.occurrences
        && r.occurrences + hr.occurrences + (if now - hr.firstseen <= hr.timeInterval then 1 else 0) <= INT32_MAX
      case _ => true
  }

  /** No step of the run frees the record or overflows its count. */
  predicate KeepsRecord(s: State, steps: seq<Step>, ip: Name)
    requires Runs(s, steps)
    decreases |steps|
  {
    steps == [] || (
      && NoOverflow(s, steps[0], ip)
      && steps[0] != Purge(ip) && steps[0] != Destroy(ip)
      && KeepsRecord(Next(s, steps[0]), steps[1..], ip))
  }

  /** What a conforming agent sends is at or above its own positive threshold. */
  predicate Conforming(step: Step) {
    step.RemoteAdd? ==> 1 <= step.hr.actionThreshold <= step.hr.occurrences <= INT32_MAX
  }

  predicate AllConforming(steps: seq<Step>) {
    forall i :: 0 <= i < |steps| ==> Conforming(steps[i])
  }

  lemma {:induction false} DueStaysDue(s: State, steps: seq<Step>, ip: Name)
    requires Runs(s, steps) && KeepsRecord(s, steps, ip) && AllConforming(steps)
    requires ip in s.table && Due(s.table[ip]) && 0 <= s.table[ip].occurrences <= INT32_MAX
    ensures ip in Exec(s, steps).table && Due(Exec(s, steps).table[ip])
    decreases |steps|
  {
    if steps != [] {
      var t := Next(s, steps[0]);
      assert Conforming(steps[0]);
      assert ip in t.table && Due(t.table[ip]) && 0 <= t.table[ip].occurrences <= INT32_MAX;
      DueStaysDue(t, steps[1..], ip);
    }
  }

  /** A conforming peer's record is processed by the next action visit, unless it is freed first. */
  lemma ReceivedGetsProcessed(s: State, received: Step, steps: seq<Step>, now: int)
    requires received.RemoteAdd? && Runs(s, [received] + steps)
    requires KeepsRecord(s, [received] + steps, received.hr.ipaddr) && AllConforming([received] + steps)
    requires Enabled(Exec(s, [received] + steps), Action(received.hr.ipaddr, now))
    ensures Next(Exec(s, [received] + steps), Action(received.hr.ipaddr, now)).table[received.hr.ipaddr].processed != 0
  {
    var all := [received] + steps;
    assert all[1..] == steps && Conforming(all[0]);
    DueStaysDue(Next(s, received), steps, received.hr.ipaddr);
  }
}
