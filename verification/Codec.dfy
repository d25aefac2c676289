/** net_command_to_buff and net_buff_to_command. */
module Codec {
  import opened Base
  import opened Wire

  const COMMAND_SIZE := 144
  const ADD := 0

  /** A host record as it lies in memory: fixed-size character arrays and machine integers. */
  datatype Raw = Raw(
    origin: seq<Byte>,
    ipaddr: seq<Byte>,
    firstseen: int,
    lastseen: int,
    purgeAfter: int,
    timeInterval: int,
    occurrences: int,
    actionThreshold: int,
    remove: int,
    processed: int)

  predicate Fits(i: int, n: nat) {
    -(Pow256(n) / 2) <= i < (Pow256(n) + 1) / 2
  }

  /** Signed 32-bit and 64-bit ranges. */
  lemma FitsMachine(i: int)
    ensures Fits(i, 4) <==> -0x8000_0000 <= i <= INT32_MAX
    ensures Fits(i, 8) <==> -0x8000_0000_0000_0000 <= i <= INT64_MAX
  {
    assert Pow256(4) == 0x1_0000_0000;
    assert Pow256(8) == 0x1_0000_0000 * Pow256(4);
  }

  predicate InMemory(r: Raw) {
    && |r.origin| == IPADDR_SIZE && |r.ipaddr| == IPADDR_SIZE
    && Fits(r.firstseen, 8) && Fits(r.lastseen, 8) && Fits(r.purgeAfter, 8) && Fits(r.timeInterval, 8)
    && Fits(r.occurrences, 4) && Fits(r.actionThreshold, 4) && Fits(r.remove, 4) && Fits(r.processed, 4)
  }

  /** Conversion between a signed integer and the unsigned word of n bytes that holds it. */
  function Unsigned(i: int, n: nat): nat
    requires Fits(i, n)
  {
    if i < 0 then i + Pow256(n) else i
  }

  function Signed(u: nat, n: nat): int {
    if u < (Pow256(n) + 1) / 2 then u else u - Pow256(n)
  }

  function Word(i: int, n: nat): seq<Byte>
    requires Fits(i, n)
  {
    BE(Unsigned(i, n), n)
  }

  function Int(b: seq<Byte>): int {
    Signed(FromBE(b), |b|)
  }

  lemma WordInt(i: int, n: nat)
    requires Fits(i, n)
    ensures |Word(i, n)| == n && Int(Word(i, n)) == i
  {
    LengthBE(Unsigned(i, n), n);
    BEValue(Unsigned(i, n), n);
  }

  lemma IntWord(b: seq<Byte>)
    ensures Fits(Int(b), |b|) && Word(Int(b), |b|) == b
  {
    BEBytes(b);
  }

  /** The wire image: command, the two address fields, four 64-bit and four 32-bit integers. */
  function Encode(command: nat, r: Raw): seq<Byte>
    requires InMemory(r)
  {
    BE(command, 4) + r.origin + r.ipaddr
    + Word(r.firstseen, 8) + Word(r.lastseen, 8) + Word(r.purgeAfter, 8) + Word(r.timeInterval, 8)
    + Word(r.occurrences, 4) + Word(r.actionThreshold, 4) + Word(r.remove, 4) + Word(r.processed, 4)
  }

  datatype Command = Command(code: nat, record: Raw)

  function Decode(b: seq<Byte>): Command
    requires |b| == COMMAND_SIZE
  {
    Command(FromBE(b[..4]),
            Raw(b[4..50], b[50..96],
                Int(b[96..104]), Int(b[104..112]), Int(b[112..120]), Int(b[120..128]),
                Int(b[128..132]), Int(b[132..136]), Int(b[136..140]), Int(b[140..144])))
  }

  lemma EncodeLength(command: nat, r: Raw)
    requires InMemory(r)
    ensures |Encode(command, r)| == COMMAND_SIZE
  {
    LengthBE(command, 4);
    WordInt(r.firstseen, 8); WordInt(r.lastseen, 8); WordInt(r.purgeAfter, 8); WordInt(r.timeInterval, 8);
    WordInt(r.occurrences, 4); WordInt(r.actionThreshold, 4); WordInt(r.remove, 4); WordInt(r.processed, 4);
  }

  lemma AddressSlices(code: seq<Byte>, origin: seq<Byte>, ipaddr: seq<Byte>, numbers: seq<Byte>)
    requires |code| == 4 && |origin| == |ipaddr| == 46
    ensures var b := code + origin + ipaddr + numbers;
      b[..4] == code && b[4..50] == origin && b[50..96] == ipaddr && b[96..] == numbers
  {
  }

  /** Four numbers of n bytes each. */
  lemma NumberSlices(n: nat, i: seq<Byte>, j: seq<Byte>, k: seq<Byte>, l: seq<Byte>, rest: seq<Byte>)
    requires |i| == |j| == |k| == |l| == n
    ensures var b := i + j + k + l + rest;
      b[..n] == i && b[n..2 * n] == j && b[2 * n..3 * n] == k && b[3 * n..4 * n] == l && b[4 * n..] == rest
  {
  }

  lemma Assemble(command: nat, r: Raw, numbers: seq<Byte>, counters: seq<Byte>)
    requires InMemory(r)
    requires counters ==
      Word(r.occurrences, 4) + Word(r.actionThreshold, 4) + Word(r.remove, 4) + Word(r.processed, 4) + []
    requires numbers ==
      Word(r.firstseen, 8) + Word(r.lastseen, 8) + Word(r.purgeAfter, 8) + Word(r.timeInterval, 8) + counters
    ensures Encode(command, r) == BE(command, 4) + r.origin + r.ipaddr + numbers
  {
  }

  lemma Nested(b: seq<Byte>, numbers: seq<Byte>, counters: seq<Byte>)
    requires |b| == COMMAND_SIZE && b[96..] == numbers && numbers[32..] == counters
    ensures b[96..104] == numbers[..8] && b[104..112] == numbers[8..16]
    ensures b[112..120] == numbers[16..24] && b[120..128] == numbers[24..32]
    ensures b[128..132] == counters[..4] && b[132..136] == counters[4..8]
    ensures b[136..140] == counters[8..12] && b[140..144] == counters[12..16]
  {
  }

  /** Where each field is in the image. */
  lemma EncodeSlices(command: nat, r: Raw)
    requires InMemory(r)
    ensures var b := Encode(command, r);
      && |b| == COMMAND_SIZE
      && b[..4] == BE(command, 4) && b[4..50] == r.origin && b[50..96] == r.ipaddr
      && b[96..104] == Word(r.firstseen, 8) && b[104..112] == Word(r.lastseen, 8)
      && b[112..120] == Word(r.purgeAfter, 8) && b[120..128] == Word(r.timeInterval, 8)
      && b[128..132] == Word(r.occurrences, 4) && b[132..136] == Word(r.actionThreshold, 4)
      && b[136..140] == Word(r.remove, 4) && b[140..144] == Word(r.processed, 4)
  {
    EncodeLength(command, r);
    LengthBE(command, 4);
    WordInt(r.firstseen, 8); WordInt(r.lastseen, 8); WordInt(r.purgeAfter, 8); WordInt(r.timeInterval, 8);
    WordInt(r.occurrences, 4); WordInt(r.actionThreshold, 4); WordInt(r.remove, 4); WordInt(r.processed, 4);
    var counters :=
      Word(r.occurrences, 4) + Word(r.actionThreshold, 4) + Word(r.remove, 4) + Word(r.processed, 4) + [];
    var numbers :=
      Word(r.firstseen, 8) + Word(r.lastseen, 8) + Word(r.purgeAfter, 8) + Word(r.timeInterval, 8) + counters;
    Assemble(command, r, numbers, counters);
    NumberSlices(4, Word(r.occurrences, 4), Word(r.actionThreshold, 4), Word(r.remove, 4), Word(r.processed, 4), []);
    NumberSlices(8, Word(r.firstseen, 8), Word(r.lastseen, 8), Word(r.purgeAfter, 8), Word(r.timeInterval, 8),
                 counters);
    AddressSlices(BE(command, 4), r.origin, r.ipaddr, numbers);
    Nested(Encode(command, r), numbers, counters);
  }

  /** Decoding gives back every command and record that was encoded. */
  lemma DecodeEncode(command: nat, r: Raw)
    requires InMemory(r) && command < Pow256(4)
    ensures |Encode(command, r)| == COMMAND_SIZE && Decode(Encode(command, r)) == Command(command, r)
  {
    EncodeSlices(command, r);
    BEValue(command, 4);
    WordInt(r.firstseen, 8); WordInt(r.lastseen, 8); WordInt(r.purgeAfter, 8); WordInt(r.timeInterval, 8);
    WordInt(r.occurrences, 4); WordInt(r.actionThreshold, 4); WordInt(r.remove, 4); WordInt(r.processed, 4);
  }

  lemma Extend(b: seq<Byte>, i: nat, j: nat)
    requires i <= j <= |b|
    ensures b[..i] + b[i..j] == b[..j]
  {
  }

  /** Every 144-byte buffer is the encoding of what it decodes to. */
  lemma EncodeDecode(b: seq<Byte>)
    requires |b| == COMMAND_SIZE
    ensures InMemory(Decode(b).record) && Decode(b).code < Pow256(4)
    ensures Encode(Decode(b).code, Decode(b).record) == b
  {
    BEBytes(b[..4]);
    IntWord(b[96..104]); IntWord(b[104..112]); IntWord(b[112..120]); IntWord(b[120..128]);
    IntWord(b[128..132]); IntWord(b[132..136]); IntWord(b[136..140]); IntWord(b[140..144]);
    Extend(b, 4, 50);
    Extend(b, 50, 96);
    Extend(b, 96, 104);
    Extend(b, 104, 112);
    Extend(b, 112, 120);
    Extend(b, 120, 128);
    Extend(b, 128, 132);
    Extend(b, 132, 136);
    Extend(b, 136, 140);
    Extend(b, 140, 144);
    assert b[..COMMAND_SIZE] == b;
  }

  // ---- the layout, byte by byte ----

  const WORD := 0x1_0000_0000
  const LONG := 0x1_0000_0000_0000_0000

  /** What the buffer holds at each offset: unsigned words, the most significant byte first, modulo their size. */
  predicate Layout(b: seq<Byte>, command: nat, r: Raw) {
    && |b| == COMMAND_SIZE
    && FromBE(b[..4]) == command
    && b[4..50] == r.origin && b[50..96] == r.ipaddr
    && FromBE(b[96..104]) == r.firstseen % LONG && FromBE(b[104..112]) == r.lastseen % LONG
    && FromBE(b[112..120]) == r.purgeAfter % LONG && FromBE(b[120..128]) == r.timeInterval % LONG
    && FromBE(b[128..132]) == r.occurrences % WORD && FromBE(b[132..136]) == r.actionThreshold % WORD
    && FromBE(b[136..140]) == r.remove % WORD && FromBE(b[140..144]) == r.processed % WORD
  }

  predicate IsInt32(i: int) {
    -0x8000_0000 <= i <= 0x7fff_ffff
  }

  predicate IsInt64(i: int) {
    -0x8000_0000_0000_0000 <= i <= 0x7fff_ffff_ffff_ffff
  }

  /** The integer fields are in the range of their C types. */
  predicate InRange(r: Raw) {
    && IsInt64(r.firstseen) && IsInt64(r.lastseen) && IsInt64(r.purgeAfter) && IsInt64(r.timeInterval)
    && IsInt32(r.occurrences) && IsInt32(r.actionThreshold) && IsInt32(r.remove) && IsInt32(r.processed)
  }

  lemma Sizes()
    ensures Pow256(4) == WORD && Pow256(8) == LONG
  {
    assert Pow256(4) == 0x1_0000_0000;
    assert Pow256(8) == 0x1_0000_0000 * Pow256(4);
  }

  lemma WordValue(i: int, n: nat)
    requires Fits(i, n) && (n == 4 || n == 8)
    ensures FromBE(Word(i, n)) == i % (if n == 4 then WORD else LONG)
  {
    Sizes();
    BEValue(Unsigned(i, n), n);
  }

  lemma EncodeLayout(command: nat, r: Raw)
    requires InMemory(r) && command < WORD
    ensures Layout(Encode(command, r), command, r)
  {
    EncodeSlices(command, r);
    Sizes();
    BEValue(command, 4);
    WordValue(r.firstseen, 8); WordValue(r.lastseen, 8); WordValue(r.purgeAfter, 8); WordValue(r.timeInterval, 8);
    WordValue(r.occurrences, 4); WordValue(r.actionThreshold, 4); WordValue(r.remove, 4); WordValue(r.processed, 4);
  }

  lemma DecodeLayout(b: seq<Byte>)
    requires |b| == COMMAND_SIZE
    ensures Layout(b, Decode(b).code, Decode(b).record) && Decode(b).code < WORD && InRange(Decode(b).record)
  {
    EncodeDecode(b);
    Sizes();
    EncodeLayout(Decode(b).code, Decode(b).record);
    var r := Decode(b).record;
    FitsMachine(r.firstseen); FitsMachine(r.lastseen); FitsMachine(r.purgeAfter); FitsMachine(r.timeInterval);
    FitsMachine(r.occurrences); FitsMachine(r.actionThreshold); FitsMachine(r.remove); FitsMachine(r.processed);
  }

  lemma SameWord(i: int, j: int)
    requires IsInt32(i) && IsInt32(j) && i % WORD == j % WORD
    ensures i == j
  {
  }

  lemma SameLong(i: int, j: int)
    requires IsInt64(i) && IsInt64(j) && i % LONG == j % LONG
    ensures i == j
  {
  }

  /** The layout leaves no freedom: in-range fields that a buffer holds are the only ones it holds. */
  lemma LayoutDetermines(b: seq<Byte>, command: nat, r: Raw, command': nat, r': Raw)
    requires Layout(b, command, r) && Layout(b, command', r') && InRange(r) && InRange(r')
    ensures command == command' && r == r'
  {
    SameLong(r.firstseen, r'.firstseen); SameLong(r.lastseen, r'.lastseen);
    SameLong(r.purgeAfter, r'.purgeAfter); SameLong(r.timeInterval, r'.timeInterval);
    SameWord(r.occurrences, r'.occurrences); SameWord(r.actionThreshold, r'.actionThreshold);
    SameWord(r.remove, r'.remove); SameWord(r.processed, r'.processed);
  }

  // ---- the buffer operations ----

  /** memcpy into the buffer at `pos`. */
  method Copy(buff: array<Byte>, pos: nat, bytes: seq<Byte>) returns (next: nat)
    requires pos + |bytes| <= buff.Length
    modifies buff
    ensures next == pos + |bytes|
    ensures buff[..next] == old(buff[..pos]) + bytes
  {
    for i := 0 to |bytes|
      invariant buff[..pos + i] == old(buff[..pos]) + bytes[..i]
    {
      buff[pos + i] := bytes[i];
    }
    next := pos + |bytes|;
  }

  /** htonl or htonll, then memcpy of the resulting word. */
  method CopyInt(e: Endian, buff: array<Byte>, pos: nat, i: int, n: nat) returns (next: nat)
    requires Fits(i, n) && pos + n <= buff.Length
    modifies buff
    ensures next == pos + n
    ensures buff[..next] == old(buff[..pos]) + Word(i, n)
  {
    var u := Unsigned(i, n);
    NetworkOrder(e, u, n);
    LengthBE(u, n);
    next := Copy(buff, pos, Stored(e, Hton(e, u, n), n));
  }

  method CopyTimes(e: Endian, buff: array<Byte>, start: nat, r: Raw) returns (pos: nat)
    requires InMemory(r) && start + 32 <= buff.Length
    modifies buff
    ensures pos == start + 32
    ensures buff[..pos] == old(buff[..start])
      + Word(r.firstseen, 8) + Word(r.lastseen, 8) + Word(r.purgeAfter, 8) + Word(r.timeInterval, 8)
  {
    pos := CopyInt(e, buff, start, r.firstseen, 8);
    pos := CopyInt(e, buff, pos, r.lastseen, 8);
    pos := CopyInt(e, buff, pos, r.purgeAfter, 8);
    pos := CopyInt(e, buff, pos, r.timeInterval, 8);
  }

  method CopyCounters(e: Endian, buff: array<Byte>, start: nat, r: Raw) returns (pos: nat)
    requires InMemory(r) && start + 16 <= buff.Length
    modifies buff
    ensures pos == start + 16
    ensures buff[..pos] == old(buff[..start])
      + Word(r.occurrences, 4) + Word(r.actionThreshold, 4) + Word(r.remove, 4) + Word(r.processed, 4)
  {
    pos := CopyInt(e, buff, start, r.occurrences, 4);
    pos := CopyInt(e, buff, pos, r.actionThreshold, 4);
    pos := CopyInt(e, buff, pos, r.remove, 4);
    pos := CopyInt(e, buff, pos, r.processed, 4);
  }

  method CommandToBuff(e: Endian, command: nat, r: Raw, buff: array<Byte>) returns (pos: nat)
    requires InMemory(r) && buff.Length == COMMAND_SIZE
    modifies buff
    ensures pos == COMMAND_SIZE && buff[..] == Encode(command, r)
    ensures command < WORD ==> Layout(buff[..], command, r)
  {
    NetworkOrder(e, command, 4);
    LengthBE(command, 4);
    pos := Copy(buff, 0, Stored(e, Hton(e, command, 4), 4));
    assert buff[..pos] == BE(command, 4);
    pos := Copy(buff, pos, r.origin);
    pos := Copy(buff, pos, r.ipaddr);
    pos := CopyTimes(e, buff, pos, r);
    pos := CopyCounters(e, buff, pos, r);
    assert buff[..] == buff[..pos];
    if command < WORD {
      EncodeLayout(command, r);
    }
  }

  /** memcpy of n bytes from the buffer into a host word, then ntohl or ntohll. */
  method TakeInt(e: Endian, buff: array<Byte>, pos: nat, n: nat) returns (i: int, next: nat)
    requires pos + n <= buff.Length
    ensures next == pos + n && i == Int(buff[pos..pos + n])
  {
    var word := buff[pos..pos + n];
    HostOrder(e, word);
    i := Signed(Hton(e, Loaded(e, word), n), n);
    next := pos + n;
  }

  method BuffToCommand(e: Endian, buff: array<Byte>) returns (c: Command)
    requires buff.Length == COMMAND_SIZE
    ensures c == Decode(buff[..])
    ensures Layout(buff[..], c.code, c.record) && c.code < WORD && InRange(c.record)
  {
    ghost var b := buff[..];
    DecodeLayout(b);
    HostOrder(e, buff[..4]);
    var code := Hton(e, Loaded(e, buff[..4]), 4);
    var pos := 4;
    var origin := buff[pos..pos + IPADDR_SIZE];
    pos := pos + IPADDR_SIZE;
    var ipaddr := buff[pos..pos + IPADDR_SIZE];
    pos := pos + IPADDR_SIZE;
    assert b[..4] == buff[..4] && b[4..50] == origin && b[50..96] == ipaddr;
    var firstseen, lastseen, purgeAfter, timeInterval, occurrences, actionThreshold, remove, processed;
    firstseen, lastseen, purgeAfter, timeInterval, pos := TakeFour(e, buff, pos, 8);
    occurrences, actionThreshold, remove, processed, pos := TakeFour(e, buff, pos, 4);
    c := Command(code, Raw(origin, ipaddr, firstseen, lastseen, purgeAfter, timeInterval,
                           occurrences, actionThreshold, remove, processed));
  }

  /** Four integers of n bytes in a row. */
  method TakeFour(e: Endian, buff: array<Byte>, start: nat, n: nat) returns (i: int, j: int, k: int, l: int, pos: nat)
    requires start + 4 * n <= buff.Length
    ensures pos == start + 4 * n
    ensures i == Int(buff[..][start..start + n]) && j == Int(buff[..][start + n..start + 2 * n])
    ensures k == Int(buff[..][start + 2 * n..start + 3 * n]) && l == Int(buff[..][start + 3 * n..start + 4 * n])
  {
    i, pos := TakeInt(e, buff, start, n);
    j, pos := TakeInt(e, buff, pos, n);
    k, pos := TakeInt(e, buff, pos, n);
    l, pos := TakeInt(e, buff, pos, n);
    assert buff[..][start..start + n] == buff[start..start + n];
    assert buff[..][start + n..start + 2 * n] == buff[start + n..start + 2 * n];
    assert buff[..][start + 2 * n..start + 3 * n] == buff[start + 2 * n..start + 3 * n];
    assert buff[..][start + 3 * n..start + 4 * n] == buff[start + 3 * n..start + 4 * n];
  }

  // ---- host records as the daemon reads them ----

  /** strncpy into an address field pads with NUL bytes. */
  function Padded(s: Name): seq<Byte>
    requires |s| <= IPADDR_SIZE
  {
    s + seq(IPADDR_SIZE - |s|, i => 0)
  }

  function CString(b: seq<Byte>): Name {
    if b == [] || b[0] == 0 then [] else [b[0]] + CString(b[1..])
  }

  lemma {:induction false} CStringOf(s: Name, pad: seq<Byte>)
    requires 0 !in s && pad != [] && pad[0] == 0
    ensures CString(s + pad) == s
  {
    if s == [] {
      assert s + pad == pad;
    } else {
      CStringOf(s[1..], pad);
      assert (s + pad)[1..] == s[1..] + pad;
    }
  }

  predicate Sendable(r: HostRecord) {
    && IsAddress(r.origin) && IsAddress(r.ipaddr)
    && Fits(r.firstseen, 8) && Fits(r.lastseen, 8) && Fits(r.purgeAfter, 8) && Fits(r.timeInterval, 8)
    && Fits(r.occurrences, 4) && Fits(r.actionThreshold, 4) && Fits(r.remove, 4) && Fits(r.processed, 4)
  }

  function ToRaw(r: HostRecord): Raw
    requires Sendable(r)
  {
    Raw(Padded(r.origin), Padded(r.ipaddr), r.firstseen, r.lastseen, r.purgeAfter, r.timeInterval,
        r.occurrences, r.actionThreshold, r.remove, r.processed)
  }

  function FromRaw(r: Raw): HostRecord {
    HostRecord(CString(r.origin), CString(r.ipaddr), r.firstseen, r.lastseen, r.purgeAfter, r.timeInterval,
               r.occurrences, r.actionThreshold, r.remove, r.processed)
  }

  /** What a client worker puts on the wire for one queue entry. */
  function Frame(r: HostRecord): seq<Byte>
    requires Sendable(r)
  {
    Encode(ADD, ToRaw(r))
  }

  lemma FrameRoundTrip(r: HostRecord)
    requires Sendable(r)
    ensures |Frame(r)| == COMMAND_SIZE
    ensures Decode(Frame(r)).code == ADD && FromRaw(Decode(Frame(r)).record) == r
  {
    DecodeEncode(ADD, ToRaw(r));
    CStringOf(r.origin, seq(IPADDR_SIZE - |r.origin|, i => 0));
    CStringOf(r.ipaddr, seq(IPADDR_SIZE - |r.ipaddr|, i => 0));
  }

  /** The string and then zeros, from `at` to the end of the field. */
  predicate FieldHolds(f: seq<Byte>, at: nat, s: Name)
    requires at + 46 <= |f|
  {
    forall p :: at <= p < at + 46 ==> f[p] == if p - at < |s| then s[p - at] else 0
  }

  lemma FieldBytes(f: seq<Byte>, at: nat, s: Name)
    requires |s| < IPADDR_SIZE && at + IPADDR_SIZE <= |f| && f[at..at + IPADDR_SIZE] == Padded(s)
    ensures FieldHolds(f, at, s)
  {
    assert forall p :: at <= p < at + 46 ==> f[p] == f[at..at + IPADDR_SIZE][p - at];
  }

  /** What a queue entry is on the wire: command 0, the two addresses padded with zeros, and its numbers. */
  lemma FrameBytes(r: HostRecord)
    requires Sendable(r)
    ensures Layout(Frame(r), 0, ToRaw(r)) && FieldHolds(Frame(r), 4, r.origin) && FieldHolds(Frame(r), 50, r.ipaddr)
  {
    EncodeLayout(ADD, ToRaw(r));
    FieldBytes(Frame(r), 4, r.origin);
    FieldBytes(Frame(r), 50, r.ipaddr);
  }
}
