/** The host table as a map from IP to record, and the per-record operations on it. */
module HostTable {
  import opened Base

  type Table = map<Name, HostRecord>

  /** The record a first local hit creates. */
  function FreshLocal(ip: Name, now: int, cfg: Config): HostRecord {
    HostRecord(LOCALHOST, Truncated(ip), now, 0, cfg.purgeAfter, cfg.timeInterval, 1, cfg.actionThreshold, 0, 0)
  }

  /** A further local hit: counted only inside the record's time interval. */
  function Bump(r: HostRecord, now: int): HostRecord {
    var seen := r.(lastseen := now);
    if now - r.firstseen <= r.timeInterval then seen.(occurrences := Wrap32(r.occurrences + 1)) else seen
  }

  /** A remote record copied over an existing one; `processed` survives and the counts add up. */
  function Merge(prev: HostRecord, hr: HostRecord, now: int): HostRecord {
    var summed :=
      hr.(processed := prev.processed, occurrences := Wrap32(hr.occurrences + prev.occurrences), lastseen := now);
    if now - hr.firstseen <= hr.timeInterval
    then summed.(occurrences := Wrap32(summed.occurrences + 1))
    else summed
  }

  function AddIp(m: Table, ip: Name, now: int, cfg: Config): Table {
    m[ip := if ip in m then Bump(m[ip], now) else FreshLocal(ip, now, cfg)]
  }

  function AddRecord(m: Table, hr: HostRecord, now: int): Table {
    m[hr.ipaddr := if hr.ipaddr in m then Merge(m[hr.ipaddr], hr, now) else hr]
  }

  predicate Fires(r: HostRecord) {
    r.occurrences >= r.actionThreshold && r.processed == 0
  }

  predicate Stale(r: HostRecord, now: int) {
    now - (if r.lastseen == 0 then r.firstseen else r.lastseen) > r.purgeAfter
  }

  /** The action thread's visit to one record. */
  function Act(r: HostRecord, now: int): HostRecord {
    if Fires(r) then r.(processed := 1)
    else if Stale(r, now) then r.(remove := 1)
    else r
  }

  function Mark(r: HostRecord): HostRecord { r.(remove := 1) }
}
