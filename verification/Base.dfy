/** Types and constants shared by every component of the daemon. */
module Base {

  datatype Option<+T> = None | Some(value: T)

  type Byte = x: int | 0 <= x < 256

  /** A C string: the bytes before the terminating NUL. */
  type Name = seq<Byte>

  const IPADDR_SIZE := 46

  /** The bytes of "localhost". */
  const LOCALHOST: Name := [108, 111, 99, 97, 108, 104, 111, 115, 116]

  const INT32_MAX := 0x7fff_ffff
  const INT64_MAX := 0x7fff_ffff_ffff_ffff

  /** The host record; times are seconds, `remove` and `processed` are C truth values. */
  datatype HostRecord = HostRecord(
    origin: Name,
    ipaddr: Name,
    firstseen: int,
    lastseen: int,
    purgeAfter: int,
    timeInterval: int,
    occurrences: int,
    actionThreshold: int,
    remove: int,
    processed: int)

  /** Two's complement reduction to a signed 32-bit value. */
  function Wrap32(n: int): int {
    (n + 0x8000_0000) % 0x1_0000_0000 - 0x8000_0000
  }

  /** What a NUL-terminated IPADDR_SIZE buffer keeps of a string copied into it. */
  function Truncated(s: Name): Name {
    if |s| < IPADDR_SIZE then s else s[..IPADDR_SIZE - 1]
  }

  /** A NUL-terminated string that fits an address field. */
  predicate IsAddress(s: Name) {
    |s| < IPADDR_SIZE && 0 !in s
  }

  datatype Config = Config(actionThreshold: int, timeInterval: int, purgeAfter: int, maxInConnections: int) {
    predicate Sane() {
      && 1 <= actionThreshold <= INT32_MAX
      && 1 <= timeInterval <= INT64_MAX
      && 1 <= purgeAfter <= INT64_MAX
      && 1 <= maxInConnections <= MAX_INCONN
    }
  }

  const MAX_INCONN := 256

  /** Out-of-range options fall back to the built-in defaults. */
  function Sanitize(raw: Config): Config {
    Config(
      if raw.actionThreshold < 1 then 3 else raw.actionThreshold,
      if raw.timeInterval < 1 then 60 else raw.timeInterval,
      if raw.purgeAfter < 1 then 3600 else raw.purgeAfter,
      var capped := if raw.maxInConnections > MAX_INCONN then MAX_INCONN else raw.maxInConnections;
      if capped < 1 then 5 else capped)
  }

  /** A longer string keeps exactly its first 45 bytes, a shorter one all of them. */
  lemma TruncatedMeans(s: Name)
    ensures Truncated(s) <= s
    ensures |s| <= 45 ==> Truncated(s) == s
    ensures |s| >= 46 ==> |Truncated(s)| == 45
    ensures IsAddress(Truncated(s)) <==> 0 !in s[..if |s| < 45 then |s| else 45]
  {
  }

  /** An option in its range is kept; the rest become their defaults or, for connections, the maximum. */
  lemma SanitizeMeans(raw: Config)
    ensures var c := Sanitize(raw);
      && c.actionThreshold == (if raw.actionThreshold >= 1 then raw.actionThreshold else 3)
      && c.timeInterval == (if raw.timeInterval >= 1 then raw.timeInterval else 60)
      && c.purgeAfter == (if raw.purgeAfter >= 1 then raw.purgeAfter else 3600)
    ensures 1 <= raw.maxInConnections <= 256 ==> Sanitize(raw).maxInConnections == raw.maxInConnections
    ensures raw.maxInConnections > 256 ==> Sanitize(raw).maxInConnections == 256
    ensures raw.maxInConnections < 1 ==> Sanitize(raw).maxInConnections == 5
    ensures Sanitize(Sanitize(raw)) == Sanitize(raw)
    ensures raw.actionThreshold <= INT32_MAX && raw.timeInterval <= INT64_MAX && raw.purgeAfter <= INT64_MAX ==>
      Sanitize(raw).Sane()
  {
  }

  lemma HeadFirst<T>(first: seq<T>, second: seq<T>)
    requires first != []
    ensures first + second == [first[0]] + (first[1..] + second)
  {
  }
}
