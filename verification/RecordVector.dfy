/** The sparse, growable slot vector that stores the host table. */
module RecordVector {
  import opened Base
  import HostTable

  type Slots = seq<Option<HostRecord>>

  const CHUNK := 100

  /** The map a vector stands for. */
  function Contents(s: Slots): HostTable.Table {
    if s == [] then map[] else
      var n := |s| - 1;
      if s[n].Some? then Contents(s[..n])[s[n].value.ipaddr := s[n].value] else Contents(s[..n])
  }

  /** No two records share a key (see UniqueMeans). */
  predicate Unique(s: Slots) {
    s == [] || (
      var n := |s| - 1;
      Unique(s[..n]) && (s[n].Some? ==> s[n].value.ipaddr !in Contents(s[..n])))
  }

  /** A callback's verdict on one record: its new value, and whether the enumeration stops. */
  datatype Reply = Reply(record: HostRecord, stop: bool)

  /** Callbacks never change a record's key; the number is the position of the call in the pass. */
  type Callback = (nat, HostRecord) -> Reply

  ghost predicate KeepsKeys(cb: Callback) {
    forall k, r :: cb(k, r).record.ipaddr == r.ipaddr
  }

  /** The callback applied to the records of `keys` one after the other. */
  ghost function Visited(m: HostTable.Table, keys: seq<Name>, cb: Callback): HostTable.Table
  {
    if keys == [] then m else
      var last := |keys| - 1;
      var before := Visited(m, keys[..last], cb);
      if keys[last] in before then before[keys[last] := cb(last, before[keys[last]]).record] else before
  }

  /** Every callback went on except, when the pass stopped, the last one. */
  ghost predicate StopsAtEnd(m: HostTable.Table, visited: seq<Name>, cb: Callback, stopped: bool) {
    && (stopped ==> visited != [])
    && forall k :: 0 <= k < |visited| ==>
         visited[k] in m && (cb(k, m[visited[k]]).stop <==> stopped && k == |visited| - 1)
  }

  lemma StopsAtNext(m: HostTable.Table, visited: seq<Name>, cb: Callback, ip: Name)
    requires StopsAtEnd(m, visited, cb, false) && ip in m
    ensures StopsAtEnd(m, visited + [ip], cb, cb(|visited|, m[ip]).stop)
  {
  }

  /** What the callbacks were shown. */
  ghost predicate Shows(m: HostTable.Table, visited: seq<Name>, seen: seq<HostRecord>) {
    |seen| == |visited| && forall k :: 0 <= k < |visited| ==> visited[k] in m && seen[k] == m[visited[k]]
  }

  lemma ShowsNext(m: HostTable.Table, visited: seq<Name>, seen: seq<HostRecord>, ip: Name)
    requires Shows(m, visited, seen) && ip in m
    ensures Shows(m, visited + [ip], seen + [m[ip]])
  {
  }

  predicate Distinct(keys: seq<Name>) {
    forall i, j :: 0 <= i < j < |keys| ==> keys[i] != keys[j]
  }

  /** The first empty slot, or the end if there is none. */
  predicate IsFirstFree(s: Slots, pos: nat) {
    && pos <= |s|
    && (forall j :: 0 <= j < pos ==> s[j].Some?)
    && (pos < |s| ==> s[pos].None?)
  }

  /** A record put into a slot, or into the first of a new chunk. */
  function Placed(s: Slots, pos: nat, r: HostRecord): Slots
    requires pos <= |s|
  {
    if pos < |s| then s[pos := Some(r)] else s + [Some(r)] + seq(CHUNK - 1, i => None)
  }

  lemma PlacedAt(s: Slots, grown: Slots, pos: nat, r: HostRecord)
    requires pos <= |s| && grown == if pos < |s| then s else s + seq(CHUNK, i => None)
    ensures grown[pos := Some(r)] == Placed(s, pos, r)
  {
  }

  /** The record went to the first free slot, and the vector grew only if there was none. */
  ghost predicate PutFirstFree(s: Slots, t: Slots, r: HostRecord) {
    exists pos :: IsFirstFree(s, pos) && t == Placed(s, pos, r)
  }

  /** The first index from which every slot is empty. */
  predicate IsLastUsed(s: Slots, n: nat) {
    && n <= |s|
    && (n > 0 ==> s[n - 1].Some?)
    && forall i :: n <= i < |s| ==> s[i].None?
  }

  /** The flagged records, in slot order. */
  function Flagged(s: Slots): seq<HostRecord> {
    if s == [] then [] else
      var last, before := s[|s| - 1], Flagged(s[..|s| - 1]);
      if last.Some? && last.value.remove != 0 then before + [last.value] else before
  }

  ghost function FlaggedKeys(m: HostTable.Table): set<Name> {
    set ip | ip in m && m[ip].remove != 0
  }

  function Ips(rs: seq<HostRecord>): seq<Name> {
    seq(|rs|, i requires 0 <= i < |rs| => rs[i].ipaddr)
  }

  /** The keys in slot order. */
  function KeyList(s: Slots): seq<Name> {
    if s == [] then [] else
      var last, before := s[|s| - 1], KeyList(s[..|s| - 1]);
      if last.Some? then before + [last.value.ipaddr] else before
  }

  // ---- one slot changes, one key changes ----

  predicate Holds(s: Slots, ip: Name) {
    exists i :: 0 <= i < |s| && s[i].Some? && s[i].value.ipaddr == ip
  }

  lemma {:induction false} InContents(s: Slots, ip: Name)
    ensures ip in Contents(s) <==> Holds(s, ip)
  {
    if s != [] {
      var n := |s| - 1;
      InContents(s[..n], ip);
      assert s == s[..n] + [s[n]];
    }
  }

  lemma {:induction false} SlotIn(s: Slots, i: nat)
    requires Unique(s) && i < |s| && s[i].Some?
    ensures s[i].value.ipaddr in Contents(s) && Contents(s)[s[i].value.ipaddr] == s[i].value
  {
    if i < |s| - 1 {
      SlotIn(s[..|s| - 1], i);
    }
  }

  lemma {:induction false} UniqueMeans(s: Slots)
    ensures Unique(s) <==>
      forall i, j :: 0 <= i < j < |s| && s[i].Some? && s[j].Some? ==> s[i].value.ipaddr != s[j].value.ipaddr
  {
    if s != [] {
      var n := |s| - 1;
      UniqueMeans(s[..n]);
      assert forall i :: 0 <= i < n ==> s[..n][i] == s[i];
      if s[n].Some? {
        InContents(s[..n], s[n].value.ipaddr);
      }
    }
  }

  lemma FillDuplicate(s: Slots, i: nat, r: HostRecord)
    requires i < |s| && s[i].None? && r.ipaddr in Contents(s)
    ensures !Unique(s[i := Some(r)])
  {
    var t := s[i := Some(r)];
    InContents(s, r.ipaddr);
    var j :| 0 <= j < |s| && s[j].Some? && s[j].value.ipaddr == r.ipaddr;
    assert t[j] == s[j] && t[i] == Some(r);
    UniqueMeans(t);
  }

  lemma {:induction false} FillSlot(s: Slots, i: nat, r: HostRecord)
    requires Unique(s) && i < |s| && s[i].None? && r.ipaddr !in Contents(s)
    ensures Unique(s[i := Some(r)])
    ensures Contents(s[i := Some(r)]) == Contents(s)[r.ipaddr := r]
  {
    var n := |s| - 1;
    if i < n {
      FillSlot(s[..n], i, r);
      assert s[i := Some(r)][..n] == s[..n][i := Some(r)];
    } else {
      assert s[i := Some(r)][..n] == s[..n];
    }
  }

  lemma {:induction false} OverwriteSlot(s: Slots, i: nat, r: HostRecord)
    requires Unique(s) && i < |s| && s[i].Some? && s[i].value.ipaddr == r.ipaddr
    ensures Unique(s[i := Some(r)])
    ensures Contents(s[i := Some(r)]) == Contents(s)[r.ipaddr := r]
  {
    var n := |s| - 1;
    if i < n {
      SlotIn(s[..n], i);
      OverwriteSlot(s[..n], i, r);
      assert s[i := Some(r)][..n] == s[..n][i := Some(r)];
    } else {
      assert s[i := Some(r)][..n] == s[..n];
    }
  }

  lemma {:induction false} ClearSlot(s: Slots, i: nat)
    requires Unique(s) && i < |s| && s[i].Some?
    ensures Unique(s[i := None])
    ensures Contents(s[i := None]) == Contents(s) - {s[i].value.ipaddr}
  {
    var n := |s| - 1;
    if i < n {
      SlotIn(s[..n], i);
      ClearSlot(s[..n], i);
      assert s[i := None][..n] == s[..n][i := None];
    } else {
      assert s[i := None][..n] == s[..n];
    }
  }

  lemma {:induction false} EmptyTail(s: Slots, n: nat)
    requires n <= |s| && forall i :: n <= i < |s| ==> s[i].None?
    ensures Unique(s) <==> Unique(s[..n])
    ensures Contents(s) == Contents(s[..n])
  {
    if n == |s| {
      assert s[..n] == s;
    } else {
      EmptyTail(s[..|s| - 1], n);
      assert s[..|s| - 1][..n] == s[..n];
    }
  }

  // ---- passes over the slots ----

  lemma VisitSlot(s: Slots, i: nat, m: HostTable.Table, visited: seq<Name>, cb: Callback)
    requires Unique(s) && i < |s| && s[i].Some?
    requires KeepsKeys(cb) && Contents(s) == Visited(m, visited, cb)
    ensures var ip, r := s[i].value.ipaddr, cb(|visited|, s[i].value).record;
      && Unique(s[i := Some(r)])
      && Contents(s[i := Some(r)]) == Visited(m, visited + [ip], cb)
  {
    var ip, r := s[i].value.ipaddr, cb(|visited|, s[i].value).record;
    SlotIn(s, i);
    OverwriteSlot(s, i, r);
    assert (visited + [ip])[..|visited|] == visited;
  }

  lemma KeyListStep(s: Slots, i: nat)
    requires i < |s|
    ensures KeyList(s[..i + 1]) == if s[i].Some? then KeyList(s[..i]) + [s[i].value.ipaddr] else KeyList(s[..i])
  {
    assert s[..i + 1][..i] == s[..i];
  }

  lemma FlaggedStep(s: Slots, i: nat)
    requires i < |s|
    ensures Flagged(s[..i + 1]) ==
      if s[i].Some? && s[i].value.remove != 0 then Flagged(s[..i]) + [s[i].value] else Flagged(s[..i])
  {
    assert s[..i + 1][..i] == s[..i];
  }

  function Kept(slot: Option<HostRecord>): Option<HostRecord> {
    if slot.Some? && slot.value.remove != 0 then None else slot
  }

  function Swept(s: Slots): Slots {
    seq(|s|, i requires 0 <= i < |s| => Kept(s[i]))
  }

  lemma {:induction false} SweptContents(s: Slots)
    requires Unique(s)
    ensures Unique(Swept(s))
    ensures Contents(Swept(s)) == Contents(s) - FlaggedKeys(Contents(s))
  {
    if s != [] {
      var n := |s| - 1;
      SweptContents(s[..n]);
      assert Swept(s)[..n] == Swept(s[..n]);
    }
  }

  function VisitedSlot(s: Slots, i: nat, cb: Callback): Option<HostRecord>
    requires i < |s|
  {
    if s[i].None? then None else Some(cb(|KeyList(s[..i])|, s[i].value).record)
  }

  function PassTo(s: Slots, n: nat, cb: Callback): Slots
    requires n <= |s|
  {
    seq(|s|, i requires 0 <= i < |s| => if i < n then VisitedSlot(s, i, cb) else s[i])
  }

  /** The same slots are in use, for the same keys. */
  predicate SameShape(s: Slots, t: Slots) {
    |s| == |t| && forall i :: 0 <= i < |s| ==>
      (s[i].Some? <==> t[i].Some?) && (s[i].Some? ==> s[i].value.ipaddr == t[i].value.ipaddr)
  }

  lemma PassShape(s: Slots, n: nat, cb: Callback)
    requires n <= |s| && KeepsKeys(cb)
    ensures SameShape(s, PassTo(s, n, cb))
  {
  }

  lemma PassStep(s: Slots, i: nat, cb: Callback)
    requires i < |s|
    ensures PassTo(s, i, cb)[i] == s[i]
    ensures PassTo(s, i + 1, cb) ==
      if s[i].Some? then PassTo(s, i, cb)[i := VisitedSlot(s, i, cb)] else PassTo(s, i, cb)
  {
  }

  /** A pass that got as far as slot `n` has visited exactly the keys below it. */
  lemma {:induction false} PassContents(s: Slots, n: nat, cb: Callback)
    requires Unique(s) && n <= |s| && KeepsKeys(cb)
    ensures Unique(PassTo(s, n, cb))
    ensures Contents(PassTo(s, n, cb)) == Visited(Contents(s), KeyList(s[..n]), cb)
  {
    if n == 0 {
      assert PassTo(s, 0, cb) == s;
    } else {
      PassContents(s, n - 1, cb);
      KeyListStep(s, n - 1);
      var before := PassTo(s, n - 1, cb);
      PassStep(s, n - 1, cb);
      if s[n - 1].Some? {
        VisitSlot(before, n - 1, Contents(s), KeyList(s[..n - 1]), cb);
      }
    }
  }

  lemma {:induction false} FlaggedOnce(s: Slots)
    requires Unique(s)
    ensures Distinct(Ips(Flagged(s)))
    ensures forall ip :: ip in Ips(Flagged(s)) <==> ip in FlaggedKeys(Contents(s))
  {
    if s != [] {
      FlaggedOnce(s[..|s| - 1]);
      var last, before := s[|s| - 1], Flagged(s[..|s| - 1]);
      if last.Some? && last.value.remove != 0 {
        assert Ips(Flagged(s)) == Ips(before) + [last.value.ipaddr];
        assert FlaggedKeys(Contents(s)) == FlaggedKeys(Contents(s[..|s| - 1])) + {last.value.ipaddr};
      } else {
        assert FlaggedKeys(Contents(s)) == FlaggedKeys(Contents(s[..|s| - 1]));
      }
    }
  }

  lemma AllKeys(s: Slots, n: nat)
    requires n <= |s| && forall i :: n <= i < |s| ==> s[i].None?
    ensures forall ip :: ip in Contents(s) <==> ip in KeyList(s[..n])
  {
    EmptyTail(s, n);
    forall ip
      ensures ip in Contents(s) <==> ip in KeyList(s[..n])
    {
      InContents(s[..n], ip);
      KeyListHolds(s[..n], ip);
    }
  }

  lemma {:induction false} KeyListHolds(s: Slots, ip: Name)
    ensures ip in KeyList(s) <==> Holds(s, ip)
  {
    if s != [] {
      var n := |s| - 1;
      KeyListHolds(s[..n], ip);
      assert s == s[..n] + [s[n]];
    }
  }

  lemma {:induction false} KeyListDistinct(s: Slots)
    requires Unique(s)
    ensures Distinct(KeyList(s))
  {
    if s != [] {
      var n := |s| - 1;
      KeyListDistinct(s[..n]);
      if s[n].Some? {
        KeyListHolds(s[..n], s[n].value.ipaddr);
        InContents(s[..n], s[n].value.ipaddr);
      }
    }
  }

  lemma AllOnce(s: Slots)
    requires Unique(s)
    ensures s[..|s|] == s && Distinct(KeyList(s))
    ensures forall ip :: ip in Contents(s) <==> ip in KeyList(s)
  {
    assert s[..|s|] == s;
    KeyListDistinct(s);
    AllKeys(s, |s|);
  }

  lemma PassKeys(s: Slots, n: nat)
    requires Unique(s) && n <= |s|
    ensures KeyList(s[..n]) <= KeyList(s) && Distinct(KeyList(s[..n]))
    ensures (forall i :: n <= i < |s| ==> s[i].None?) ==> forall ip :: ip in Contents(s) ==> ip in KeyList(s[..n])
  {
    KeyListPrefix(s, n);
    KeyListDistinct(s);
    if forall i :: n <= i < |s| ==> s[i].None? {
      AllKeys(s, n);
    }
  }

  lemma {:induction false} KeyListPrefix(s: Slots, i: nat)
    requires i <= |s|
    ensures KeyList(s[..i]) <= KeyList(s)
  {
    if i < |s| {
      KeyListPrefix(s[..|s| - 1], i);
      assert s[..|s| - 1][..i] == s[..i];
    } else {
      assert s[..i] == s;
    }
  }

  lemma {:induction false} VisitedOther(m: HostTable.Table, keys: seq<Name>, cb: Callback, ip: Name)
    requires ip !in keys
    ensures ip in Visited(m, keys, cb) <==> ip in m
    ensures ip in m ==> Visited(m, keys, cb)[ip] == m[ip]
  {
    if keys != [] {
      VisitedOther(m, keys[..|keys| - 1], cb, ip);
    }
  }

  /** A pass gives each record visited exactly the callback's reply to its value before the pass. */
  lemma {:induction false} VisitedAt(m: HostTable.Table, keys: seq<Name>, cb: Callback, k: nat)
    requires Distinct(keys) && k < |keys| && keys[k] in m
    ensures keys[k] in Visited(m, keys, cb) && Visited(m, keys, cb)[keys[k]] == cb(k, m[keys[k]]).record
  {
    var last := |keys| - 1;
    if k < last {
      VisitedAt(m, keys[..last], cb, k);
    } else {
      VisitedOther(m, keys[..last], cb, keys[last]);
    }
  }

  lemma WholeChunks(used: nat, size: nat, n: nat)
    requires used < size && size % CHUNK == 0
    requires n == (var up := (used + CHUNK - 1) / CHUNK * CHUNK; if up < CHUNK then CHUNK else up)
    ensures used <= n <= size && n > 0 && n % CHUNK == 0 && (n == CHUNK || n - CHUNK < used)
  {
    var q := (used + CHUNK - 1) / CHUNK;
    assert used + CHUNK - 1 == CHUNK * q + (used + CHUNK - 1) % CHUNK;
  }

  class RecordVector {
    var slots: Slots
    var size: nat
    var fill: nat

    /** Everything but the uniqueness of keys. */
    ghost predicate WellShaped()
      reads this
    {
      && size == |slots|
      && size > 0 && size % CHUNK == 0
      && fill <= size
      && (forall i :: fill <= i < size ==> slots[i].None?)
      && (forall i :: 0 <= i < size && slots[i].Some? ==> |slots[i].value.ipaddr| < IPADDR_SIZE)
    }

    ghost predicate Valid()
      reads this
    {
      WellShaped() && Unique(slots)
    }

    constructor ()
      ensures Valid() && Contents(slots) == map[]
    {
      size, fill := CHUNK, 0;
      slots := seq(CHUNK, i => None);
      new;
      EmptyTail(slots, 0);
    }

    /** Scans only below the high-water mark, yet answers for the whole map. */
    method Find(ip: Name) returns (pos: Option<nat>)
      requires Valid()
      ensures pos.Some? ==> pos.value < fill && slots[pos.value].Some? && slots[pos.value].value.ipaddr == ip
      ensures pos.Some? <==> ip in Contents(slots)
      ensures pos.Some? ==> Contents(slots)[ip] == slots[pos.value].value
    {
      InContents(slots, ip);
      for i := 0 to fill
        invariant forall j :: 0 <= j < i && slots[j].Some? ==> slots[j].value.ipaddr != ip
      {
        if slots[i].Some? && slots[i].value.ipaddr == ip {
          SlotIn(slots, i);
          return Some(i);
        }
      }
      pos := None;
    }

    method FindFree() returns (pos: nat, nospace: bool)
      requires WellShaped()
      ensures nospace ==> pos == 0 && forall j :: 0 <= j < size ==> slots[j].Some?
      ensures !nospace ==> pos < size && slots[pos].None? && forall j :: 0 <= j < pos ==> slots[j].Some?
    {
      for i := 0 to size
        invariant forall j :: 0 <= j < i ==> slots[j].Some?
      {
        if slots[i].None? {
          return i, false;
        }
      }
      return 0, true;
    }

    method Grow() returns (pos: nat)
      requires WellShaped()
      modifies this`slots, this`size
      ensures WellShaped() && pos == old(size) && size == pos + CHUNK
      ensures slots[..pos] == old(slots) && forall i :: pos <= i < size ==> slots[i].None?
    {
      pos := size;
      size := size + CHUNK;
      slots := slots + seq(CHUNK, i => None);
    }

    /** Puts a record whose key lookup failed into the first free slot, growing when there is none. */
    method Insert(r: HostRecord) returns (pos: nat)
      requires Valid() && |r.ipaddr| < IPADDR_SIZE
      modifies this
      ensures WellShaped()
      ensures Unique(slots) <==> r.ipaddr !in old(Contents(slots))
      ensures r.ipaddr !in old(Contents(slots)) ==> Contents(slots) == old(Contents(slots))[r.ipaddr := r]
      ensures pos < size && old(size) <= size && slots[pos] == Some(r)
      ensures forall i :: 0 <= i < old(size) && i != pos ==> slots[i] == old(slots)[i]
      ensures pos < old(size) ==> old(slots)[pos].None? && size == old(size)
      ensures pos >= old(size) ==> pos == old(size) && size == old(size) + CHUNK
      ensures IsFirstFree(old(slots), pos) && slots == Placed(old(slots), pos, r)
    {
      ghost var before := slots;
      var nospace;
      pos, nospace := FindFree();
      if pos == 0 && nospace {
        pos := Grow();
        EmptyTail(slots, pos);
      }
      if r.ipaddr in Contents(slots) {
        FillDuplicate(slots, pos, r);
      } else {
        FillSlot(slots, pos, r);
      }
      PlacedAt(before, slots, pos, r);
      slots := slots[pos := Some(r)];
      fill := if pos + 1 > fill then pos + 1 else fill;
    }

    method AddIp(ip: Name, now: int, cfg: Config)
      requires Valid()
      modifies this
      ensures WellShaped()
      ensures Unique(slots) <==> |ip| < IPADDR_SIZE || Truncated(ip) !in old(Contents(slots))
      ensures |ip| < IPADDR_SIZE ==> Contents(slots) == HostTable.AddIp(old(Contents(slots)), ip, now, cfg)
      ensures |ip| >= IPADDR_SIZE && Unique(slots) ==>
        Contents(slots) == old(Contents(slots))[Truncated(ip) := HostTable.FreshLocal(ip, now, cfg)]
      ensures ip !in old(Contents(slots)) ==> PutFirstFree(old(slots), slots, HostTable.FreshLocal(ip, now, cfg))
      ensures old(size) <= size && (ip in old(Contents(slots)) ==> size == old(size))
      ensures forall i :: 0 <= i < old(size) && old(slots)[i].Some? && old(slots)[i].value.ipaddr != ip ==>
        slots[i] == old(slots)[i]
    {
      InContents(slots, ip);
      var pos := Find(ip);
      if pos.Some? {
        var r := HostTable.Bump(slots[pos.value].value, now);
        OverwriteSlot(slots, pos.value, r);
        slots := slots[pos.value := Some(r)];
      } else {
        var _ := Insert(HostTable.FreshLocal(ip, now, cfg));
      }
    }

    method AddRecord(hr: HostRecord, now: int)
      requires Valid() && |hr.ipaddr| < IPADDR_SIZE
      modifies this
      ensures Valid()
      ensures Contents(slots) == HostTable.AddRecord(old(Contents(slots)), hr, now)
      ensures hr.ipaddr !in old(Contents(slots)) ==> PutFirstFree(old(slots), slots, hr)
      ensures old(size) <= size && (hr.ipaddr in old(Contents(slots)) ==> size == old(size))
      ensures forall i :: 0 <= i < old(size) && old(slots)[i].Some? && old(slots)[i].value.ipaddr != hr.ipaddr ==>
        slots[i] == old(slots)[i]
    {
      InContents(slots, hr.ipaddr);
      var pos := Find(hr.ipaddr);
      if pos.Some? {
        var r := HostTable.Merge(slots[pos.value].value, hr, now);
        OverwriteSlot(slots, pos.value, r);
        slots := slots[pos.value := Some(r)];
      } else {
        var _ := Insert(hr);
      }
    }

    /** Frees one record without a callback; the high-water mark stays where it is. */
    method Remove(ip: Name) returns (ok: bool)
      requires Valid()
      modifies this`slots
      ensures Valid()
      ensures ok <==> ip in old(Contents(slots))
      ensures Contents(slots) == old(Contents(slots)) - {ip}
      ensures forall i :: 0 <= i < size ==>
        slots[i] == if old(slots)[i].Some? && old(slots)[i].value.ipaddr == ip then None else old(slots)[i]
    {
      InContents(slots, ip);
      UniqueMeans(slots);
      var pos := Find(ip);
      if pos.None? {
        return false;
      }
      ClearSlot(slots, pos.value);
      slots := slots[pos.value := None];
      ok := true;
    }

    method Get(ip: Name) returns (r: Option<HostRecord>)
      requires Valid()
      ensures r == if ip in Contents(slots) then Some(Contents(slots)[ip]) else None
    {
      InContents(slots, ip);
      var pos := Find(ip);
      r := if pos.Some? then slots[pos.value] else None;
    }

    /** Calls back on every record once, in slot order, until a callback asks to stop. */
    method Enumerate(cb: Callback) returns (visited: seq<Name>, seen: seq<HostRecord>, stopped: bool)
      requires Valid() && KeepsKeys(cb)
      modifies this`slots
      ensures Valid()
      ensures Distinct(visited) && StopsAtEnd(old(Contents(slots)), visited, cb, stopped)
      ensures Contents(slots) == Visited(old(Contents(slots)), visited, cb)
      ensures Shows(old(Contents(slots)), visited, seen) && SameShape(old(slots), slots)
      ensures visited <= KeyList(old(slots))
      ensures !stopped ==> forall ip :: ip in old(Contents(slots)) ==> ip in visited
    {
      ghost var before := slots;
      ghost var n;
      visited, seen, stopped, n := Visit(cb);
      PassContents(before, n, cb);
      PassKeys(before, n);
    }

    /** The loop of the enumeration; `n` is the slot it got to. */
    method Visit(cb: Callback) returns (visited: seq<Name>, seen: seq<HostRecord>, stopped: bool, ghost n: nat)
      requires Valid() && KeepsKeys(cb)
      modifies this`slots
      ensures SameShape(old(slots), slots)
      ensures n <= fill && (!stopped ==> n == fill) && slots == PassTo(old(slots), n, cb)
      ensures visited == KeyList(old(slots)[..n])
      ensures StopsAtEnd(old(Contents(slots)), visited, cb, stopped) && Shows(old(Contents(slots)), visited, seen)
    {
      visited, seen, stopped := [], [], false;
      ghost var before := slots;
      ghost var m := Contents(before);
      var i := 0;
      while i < fill && !stopped
        invariant i <= fill && slots == PassTo(before, i, cb)
        invariant visited == KeyList(before[..i])
        invariant StopsAtEnd(m, visited, cb, stopped) && Shows(m, visited, seen)
      {
        KeyListStep(before, i);
        PassStep(before, i, cb);
        if slots[i].Some? {
          SlotIn(before, i);
          var reply := cb(|visited|, slots[i].value);
          StopsAtNext(m, visited, cb, slots[i].value.ipaddr);
          ShowsNext(m, visited, seen, slots[i].value.ipaddr);
          visited, seen := visited + [slots[i].value.ipaddr], seen + [slots[i].value];
          slots := slots[i := Some(reply.record)];
          stopped := reply.stop;
        }
        i := i + 1;
      }
      n := i;
      PassShape(before, i, cb);
    }

    /** Frees the flagged records with one callback each, re-measures and shrinks. */
    method Maintenance() returns (removed: seq<HostRecord>)
      requires Valid()
      modifies this
      ensures Valid()
      ensures removed == Flagged(old(slots))
      ensures Contents(slots) == old(Contents(slots)) - FlaggedKeys(old(Contents(slots)))
      ensures size <= old(size) && slots == Swept(old(slots))[..size]
      ensures IsLastUsed(slots, fill)
      ensures size == CHUNK || size - CHUNK < fill
      ensures Distinct(Ips(removed)) && forall ip :: ip in Ips(removed) <==> ip in FlaggedKeys(old(Contents(slots)))
    {
      FlaggedOnce(slots);
      removed := SweepFlagged();
      var lastUsed := LastUsed();
      if lastUsed == size {
        return;
      }
      Shrink(lastUsed);
    }

    /** Cuts the vector to the least multiple of the chunk that holds `lastUsed` slots, but at least one chunk. */
    method Shrink(lastUsed: nat)
      requires Valid() && IsLastUsed(slots, lastUsed) && lastUsed < size
      modifies this
      ensures Valid() && fill == lastUsed
      ensures Contents(slots) == old(Contents(slots))
      ensures size <= old(size) && slots == old(slots)[..size]
      ensures size == CHUNK || size - CHUNK < fill
    {
      var newSize := (lastUsed + CHUNK - 1) / CHUNK * CHUNK;
      newSize := if newSize < CHUNK then CHUNK else newSize;
      WholeChunks(lastUsed, size, newSize);
      EmptyTail(slots, newSize);
      size, fill := newSize, lastUsed;
      slots := slots[..newSize];
    }

    method SweepFlagged() returns (removed: seq<HostRecord>)
      requires Valid()
      modifies this`slots
      ensures Valid()
      ensures removed == Flagged(old(slots))
      ensures Contents(slots) == old(Contents(slots)) - FlaggedKeys(old(Contents(slots)))
      ensures slots == Swept(old(slots))
    {
      ghost var before := slots;
      removed := [];
      for i := 0 to size
        invariant |slots| == |before|
        invariant forall j :: 0 <= j < size ==> slots[j] == if j < i then Kept(before[j]) else before[j]
        invariant removed == Flagged(before[..i])
      {
        FlaggedStep(before, i);
        if slots[i].Some? && slots[i].value.remove != 0 {
          removed := removed + [slots[i].value];
          slots := slots[i := None];
        }
      }
      assert before[..size] == before;
      assert slots == Swept(before);
      SweptContents(before);
    }

    method LastUsed() returns (n: nat)
      requires WellShaped()
      ensures IsLastUsed(slots, n)
    {
      n := 0;
      for i := 0 to size
        invariant n <= i && (n > 0 ==> slots[n - 1].Some?)
        invariant forall j :: n <= j < i ==> slots[j].None?
      {
        if slots[i].Some? {
          n := i + 1;
        }
      }
    }

    /** Hands every remaining record to the callback once. */
    method Destroy() returns (handed: seq<HostRecord>)
      requires Valid()
      ensures Ips(handed) == KeyList(slots)
      ensures forall k :: 0 <= k < |handed| ==>
        handed[k].ipaddr in Contents(slots) && handed[k] == Contents(slots)[handed[k].ipaddr]
      ensures Distinct(Ips(handed)) && forall ip :: ip in Contents(slots) <==> ip in Ips(handed)
    {
      handed := [];
      ghost var m := Contents(slots);
      for i := 0 to size
        invariant Ips(handed) == KeyList(slots[..i])
        invariant forall k :: 0 <= k < |handed| ==> handed[k].ipaddr in m && handed[k] == m[handed[k].ipaddr]
      {
        KeyListStep(slots, i);
        if slots[i].Some? {
          SlotIn(slots, i);
          assert Ips(handed + [slots[i].value]) == Ips(handed) + [slots[i].value.ipaddr];
          handed := handed + [slots[i].value];
        }
      }
      AllOnce(slots);
    }
  }

  /** A string too long for the address field is stored cut off but looked up whole, so two hits store it twice. */
  method LongAddressTwice(v: RecordVector, ip: Name, now: int, cfg: Config)
    requires v.Valid() && |ip| >= IPADDR_SIZE && Truncated(ip) !in Contents(v.slots)
    modifies v
    ensures v.WellShaped() && !Unique(v.slots)
  {
    v.AddIp(ip, now, cfg);
    v.AddIp(ip, now, cfg);
  }
}
