/** Commands over a byte stream: net_read, net_write, and the loops that use them. */
module Framing {
  import opened Base
  import opened Wire
  import opened Codec
  import Relay

  /** What the next system call on a socket does; after a failure the calls that follow may succeed again. */
  datatype Outcome = Moves(k: nat) | Interrupted | Fails

  predicate NeverFails(script: seq<Outcome>) {
    Fails !in script
  }

  /** How many bytes a call that moves data moves: at least one, at most what is asked for and available. */
  function Moved(script: seq<Outcome>, asked: nat, available: nat): (n: nat)
    requires 0 < asked && 0 < available
    ensures 1 <= n <= asked && n <= available
  {
    var most := if asked < available then asked else available;
    if script != [] && script[0].Moves? && script[0].k < most then
      (if script[0].k == 0 then 1 else script[0].k)
    else most
  }

  datatype Transferred = Transferred(moved: nat, rest: seq<Outcome>) {
    function After(n: nat): Transferred { Transferred(n + moved, rest) }
  }

  /** How many of n bytes get written before a call fails, and which calls are left. */
  function Written(script: seq<Outcome>, n: nat): (w: Transferred)
    ensures w.moved <= n
  {
    if n == 0 || script == [] then Transferred(n, script)
    else match script[0]
      case Fails => Transferred(0, script[1..])
      case Interrupted => Written(script[1..], n)
      case Moves(_) =>
        var first := Moved(script, n, n);
        Written(script[1..], n - first).After(first)
  }

  class Socket {
    /** Bytes still to be read, bytes written so far, and the fate of the calls to come. */
    var input: seq<Byte>
    var output: seq<Byte>
    var script: seq<Outcome>

    constructor (input: seq<Byte>, script: seq<Outcome>)
      ensures this.input == input && this.script == script && output == []
    {
      this.input, this.script, output := input, script, [];
    }

    /** read(2): -1 with or without EINTR, 0 at the end of the stream, or some bytes. */
    method Read(asked: nat) returns (n: int, eintr: bool, bytes: seq<Byte>)
      requires 0 < asked
      modifies this`input, this`script
      ensures n == -1 || n == |bytes| <= asked
      ensures n == -1 ==> bytes == [] && |script| < |old(script)| && (eintr || !NeverFails(old(script)))
      ensures n == 0 ==> old(input) == []
      ensures script == if n == 0 || old(script) == [] then old(script) else old(script)[1..]
      ensures old(input) == bytes + input
    {
      bytes := [];
      if script != [] && !script[0].Moves? {
        eintr := script[0] == Interrupted;
        script := script[1..];
        return -1, eintr, [];
      }
      if input == [] {
        return 0, false, [];
      }
      n, eintr := Moved(script, asked, |input|), false;
      bytes := input[..n];
      input := input[n..];
      script := if script == [] then [] else script[1..];
    }

    /** write(2): -1 with or without EINTR, or some of the bytes. */
    method Write(bytes: seq<Byte>) returns (n: int, eintr: bool)
      requires bytes != []
      modifies this`output, this`script
      ensures n == -1 || 1 <= n <= |bytes|
      ensures |script| <= |old(script)|
      ensures n == -1 ==> output == old(output) && |script| < |old(script)|
      ensures n >= 1 ==> output == old(output) + bytes[..n]
      ensures n == -1 && !eintr ==> Written(old(script), |bytes|) == Transferred(0, script)
      ensures n == -1 && eintr ==> Written(old(script), |bytes|) == Written(script, |bytes|)
      ensures n >= 1 ==> Written(old(script), |bytes|) == Written(script, |bytes| - n).After(n)
    {
      if script != [] && !script[0].Moves? {
        eintr := script[0] == Interrupted;
        script := script[1..];
        return -1, eintr;
      }
      n, eintr := Moved(script, |bytes|, |bytes|), false;
      output := output + bytes[..n];
      script := if script == [] then [] else script[1..];
    }
  }

  /** Reads until `buf` is full, the stream ends or the connection fails. */
  method NetRead(s: Socket, buf: array<Byte>) returns (r: int)
    modifies s`input, s`script, buf
    ensures r == -1 || r == (if |old(s.input)| < buf.Length then |old(s.input)| else buf.Length)
    ensures r >= 0 ==> buf[..r] == old(s.input)[..r] && s.input == old(s.input)[r..]
    ensures r == -1 ==> !NeverFails(old(s.script))
    ensures NeverFails(old(s.script)) ==> NeverFails(s.script)
    ensures |s.script| <= |old(s.script)| && |s.input| <= |old(s.input)|
  {
    var pos: nat := 0;
    while pos < buf.Length
      invariant pos <= buf.Length && pos <= |old(s.input)|
      invariant buf[..pos] == old(s.input)[..pos] && s.input == old(s.input)[pos..]
      invariant NeverFails(old(s.script)) ==> NeverFails(s.script)
      invariant |s.script| <= |old(s.script)|
      decreases |s.script| + buf.Length - pos
    {
      var n, eintr, bytes := s.Read(buf.Length - pos);
      if n < 0 {
        if !eintr {
          return -1;
        }
        n := 0;
      } else if n == 0 {
        break;
      }
      pos := Codec.Copy(buf, pos, bytes);
    }
    r := pos;
  }

  lemma Glue(out: seq<Byte>, buf: seq<Byte>, pos: nat, n: nat)
    requires pos + n <= |buf|
    ensures out + buf[..pos] + buf[pos..][..n] == out + buf[..pos + n]
  {
  }

  /** Writes all of `buf` unless a call fails, and then only what was written before that. */
  method NetWrite(s: Socket, buf: seq<Byte>) returns (r: int)
    modifies s`output, s`script
    ensures r == if Written(old(s.script), |buf|).moved == |buf| then |buf| else -1
    ensures s.output == old(s.output) + buf[..Written(old(s.script), |buf|).moved]
    ensures s.script == Written(old(s.script), |buf|).rest
  {
    var pos: nat := 0;
    ghost var all := Written(s.script, |buf|);
    while pos < |buf|
      invariant pos <= |buf| && s.output == old(s.output) + buf[..pos]
      invariant all == Written(s.script, |buf| - pos).After(pos)
      decreases |s.script| + |buf| - pos
    {
      var rest := buf[pos..];
      ghost var left := Written(s.script, |rest|);
      var n, eintr := s.Write(rest);
      if n <= 0 {
        if !eintr {
          return -1;
        }
        n := 0;
      }
      assert left == Written(s.script, |rest| - n).After(n);
      Glue(old(s.output), buf, pos, n);
      pos := pos + n;
    }
    r := |buf|;
  }

  // ---- the server's command loop ----

  /** What the server does with a whole command. */
  datatype Verdict = Add(record: HostRecord) | Ignore | HangUp

  function Judge(frame: seq<Byte>): Verdict {
    if |frame| != COMMAND_SIZE then HangUp else
      var c := Decode(frame);
      if c.code == ADD then Add(FromRaw(c.record))
      else if c.code == 1 || c.code == 2 then Ignore
      else HangUp
  }

  /** The records added from a stream, up to a short or unknown command, for any way to judge a command. */
  function Served(judge: seq<Byte> -> Verdict, stream: seq<Byte>): seq<HostRecord> {
    if |stream| < COMMAND_SIZE then [] else
      var rest := Served(judge, stream[COMMAND_SIZE..]);
      match judge(stream[..COMMAND_SIZE])
      case Add(r) => [r] + rest
      case Ignore => rest
      case HangUp => []
  }

  method Dispatch(e: Endian, buff: array<Byte>) returns (v: Verdict)
    requires buff.Length == COMMAND_SIZE
    ensures v == Judge(buff[..])
  {
    var c := BuffToCommand(e, buff);
    v := if c.code == ADD then Add(FromRaw(c.record)) else if c.code == 1 || c.code == 2 then Ignore else HangUp;
  }

  /** Reads and judges one command; None when the stream ends, fails or stops short. */
  method NextCommand(s: Socket, e: Endian, buff: array<Byte>) returns (v: Option<Verdict>)
    requires buff.Length == COMMAND_SIZE
    modifies s`input, s`script, buff
    ensures v.Some? ==>
      && |old(s.input)| >= COMMAND_SIZE
      && v.value == Judge(old(s.input)[..COMMAND_SIZE]) && s.input == old(s.input)[COMMAND_SIZE..]
    ensures v.None? && NeverFails(old(s.script)) ==> |old(s.input)| < COMMAND_SIZE
    ensures NeverFails(old(s.script)) ==> NeverFails(s.script)
  {
    var nread := NetRead(s, buff);
    if nread == 0 || nread == -1 || nread != COMMAND_SIZE {
      return None;
    }
    assert buff[..] == buff[..nread];
    var verdict := Dispatch(e, buff);
    v := Some(verdict);
  }

  /** What one more command adds. */
  lemma ServedStep(judge: seq<Byte> -> Verdict, stream: seq<Byte>)
    requires |stream| >= COMMAND_SIZE
    ensures var v, rest := judge(stream[..COMMAND_SIZE]), Served(judge, stream[COMMAND_SIZE..]);
      Served(judge, stream) == if v.Add? then [v.record] + rest else if v.Ignore? then rest else []
  {
  }

  lemma ServedShort(judge: seq<Byte> -> Verdict, stream: seq<Byte>)
    requires |stream| < COMMAND_SIZE
    ensures Served(judge, stream) == []
  {
  }

  /** The worker's loop over the commands of one connection. */
  method Serve(s: Socket, e: Endian) returns (adds: seq<HostRecord>)
    modifies s
    ensures adds <= Served(Judge, old(s.input))
    ensures NeverFails(old(s.script)) ==> adds == Served(Judge, old(s.input))
  {
    adds := [];
    var buff := new Byte[COMMAND_SIZE](i => 0);
    ghost var all := Served(Judge, s.input);
    ghost var rest := all;
    while true
      invariant buff.Length == COMMAND_SIZE && fresh(buff)
      invariant adds + rest == all && rest == Served(Judge, s.input)
      invariant NeverFails(old(s.script)) ==> NeverFails(s.script)
      decreases |s.input|
    {
      ghost var stream := s.input;
      var v := NextCommand(s, e, buff);
      if v.None? {
        if |stream| < COMMAND_SIZE {
          ServedShort(Judge, stream);
        }
        return;
      }
      ServedStep(Judge, stream);
      rest := Served(Judge, s.input);
      match v.value {
        case Add(r) => adds := adds + [r];
        case Ignore =>
        case HangUp => return;
      }
    }
  }

  // ---- the client's send loop ----

  predicate AllSendable(rs: seq<HostRecord>) {
    forall i :: 0 <= i < |rs| ==> Sendable(rs[i])
  }

  /** How much of each of n frames gets written. */
  function Lengths(script: seq<Outcome>, n: nat): (lens: seq<nat>)
    ensures |lens| == n && forall i :: 0 <= i < n ==> lens[i] <= COMMAND_SIZE
    decreases n
  {
    if n == 0 then [] else
      var w := Written(script, COMMAND_SIZE);
      [w.moved] + Lengths(w.rest, n - 1)
  }

  predicate Measures(lens: seq<nat>, n: nat) {
    |lens| == n && forall i :: 0 <= i < n ==> lens[i] <= COMMAND_SIZE
  }

  predicate Whole(fs: seq<seq<Byte>>) {
    forall i :: 0 <= i < |fs| ==> |fs[i]| == COMMAND_SIZE
  }

  /** What is on the stream after that much of each frame was written. */
  function Pieces(fs: seq<seq<Byte>>, lens: seq<nat>): seq<Byte>
    requires Whole(fs) && Measures(lens, |fs|)
  {
    if fs == [] then [] else fs[0][..lens[0]] + Pieces(fs[1..], lens[1..])
  }

  function Frames(rs: seq<HostRecord>): (fs: seq<seq<Byte>>)
    requires AllSendable(rs)
    ensures Whole(fs) && |fs| == |rs| && forall i :: 0 <= i < |rs| ==> fs[i] == Frame(rs[i])
  {
    if rs == [] then [] else FrameRoundTrip(rs[0]); [Frame(rs[0])] + Frames(rs[1..])
  }

  lemma {:induction false} AllWritten(script: seq<Outcome>, n: nat)
    requires NeverFails(script)
    ensures Written(script, n).moved == n && NeverFails(Written(script, n).rest)
    decreases |script|
  {
    if n > 0 && script != [] {
      AllWritten(script[1..], if script[0].Moves? then n - Moved(script, n, n) else n);
    }
  }

  lemma {:induction false} AllWhole(script: seq<Outcome>, n: nat)
    requires NeverFails(script)
    ensures forall i :: 0 <= i < n ==> Lengths(script, n)[i] == COMMAND_SIZE
    decreases n
  {
    if n > 0 {
      AllWritten(script, COMMAND_SIZE);
      AllWhole(Written(script, COMMAND_SIZE).rest, n - 1);
    }
  }

  /** What is yet to be written from the i-th frame on. */
  function Ahead(fs: seq<seq<Byte>>, i: nat, script: seq<Outcome>): seq<Byte>
    requires Whole(fs) && i <= |fs|
  {
    Pieces(fs[i..], Lengths(script, |fs| - i))
  }

  lemma OnePiece(fs: seq<seq<Byte>>, i: nat, script: seq<Outcome>)
    requires Whole(fs) && i < |fs|
    ensures var w := Written(script, COMMAND_SIZE); Ahead(fs, i, script) == fs[i][..w.moved] + Ahead(fs, i + 1, w.rest)
  {
    assert fs[i..][1..] == fs[i + 1..];
    var lens := Lengths(script, |fs| - i);
    assert lens[1..] == Lengths(Written(script, COMMAND_SIZE).rest, |fs| - i - 1);
  }

  lemma Regroup(a: seq<Byte>, b: seq<Byte>, c: seq<Byte>)
    ensures a + (b + c) == a + b + c
  {
  }

  method SendOne(s: Socket, e: Endian, r: HostRecord, buff: array<Byte>)
    requires Sendable(r) && buff.Length == COMMAND_SIZE
    modifies s`output, s`script, buff
    ensures |Frame(r)| == COMMAND_SIZE
    ensures s.output == old(s.output) + Frame(r)[..Written(old(s.script), COMMAND_SIZE).moved]
    ensures s.script == Written(old(s.script), COMMAND_SIZE).rest
  {
    var _ := CommandToBuff(e, ADD, ToRaw(r), buff);
    var _ := NetWrite(s, buff[..]);
  }

  /** Sends a detached queue; a failed write does not stop the loop. */
  method Send(s: Socket, e: Endian, rs: seq<HostRecord>)
    requires AllSendable(rs)
    modifies s`output, s`script
    ensures s.output == old(s.output) + Pieces(Frames(rs), Lengths(old(s.script), |rs|))
  {
    var buff := new Byte[COMMAND_SIZE](i => 0);
    ghost var fs := Frames(rs);
    assert fs[0..] == fs;
    ghost var all := s.output + Ahead(fs, 0, s.script);
    for i := 0 to |rs|
      invariant buff.Length == COMMAND_SIZE && fresh(buff)
      invariant all == s.output + Ahead(fs, i, s.script)
    {
      OnePiece(fs, i, s.script);
      ghost var w := Written(s.script, COMMAND_SIZE);
      Regroup(s.output, fs[i][..w.moved], Ahead(fs, i + 1, w.rest));
      SendOne(s, e, rs[i], buff);
    }
  }

  // ---- end to end ----

  /** The frames of a stream, each judged to add the record it was made from. */
  ghost predicate Carries(judge: seq<Byte> -> Verdict, fs: seq<seq<Byte>>, rs: seq<HostRecord>) {
    Whole(fs) && |fs| == |rs| && forall i :: 0 <= i < |fs| ==> judge(fs[i]) == Add(rs[i])
  }

  lemma FramesCarry(rs: seq<HostRecord>)
    requires AllSendable(rs)
    ensures Carries(Judge, Frames(rs), rs)
  {
    forall i | 0 <= i < |rs|
      ensures Judge(Frames(rs)[i]) == Add(rs[i])
    {
      FrameRoundTrip(rs[i]);
    }
  }

  /** The records whose frames were written whole. */
  function Complete(rs: seq<HostRecord>, lens: seq<nat>): seq<HostRecord>
    requires |lens| == |rs|
  {
    if rs == [] then []
    else if lens[0] == COMMAND_SIZE then [rs[0]] + Complete(rs[1..], lens[1..])
    else Complete(rs[1..], lens[1..])
  }

  function Sum(lens: seq<nat>): nat {
    if lens == [] then 0 else lens[0] + Sum(lens[1..])
  }

  /** From the first frame that was written in part on, less than a whole command was written. */
  predicate Harmless(lens: seq<nat>) {
    lens == [] || (if 0 < lens[0] < COMMAND_SIZE then Sum(lens) < COMMAND_SIZE else Harmless(lens[1..]))
  }

  lemma {:induction false} PiecesLength(fs: seq<seq<Byte>>, lens: seq<nat>)
    requires Whole(fs) && Measures(lens, |fs|)
    ensures |Pieces(fs, lens)| == Sum(lens)
  {
    if fs != [] {
      PiecesLength(fs[1..], lens[1..]);
    }
  }

  lemma {:induction false} NoneComplete(rs: seq<HostRecord>, lens: seq<nat>)
    requires |lens| == |rs| && Sum(lens) < COMMAND_SIZE
    ensures Complete(rs, lens) == []
  {
    if rs != [] {
      NoneComplete(rs[1..], lens[1..]);
    }
  }

  lemma ServedNext(judge: seq<Byte> -> Verdict, f: seq<Byte>, rest: seq<Byte>, r: HostRecord)
    requires |f| == COMMAND_SIZE && judge(f) == Add(r)
    ensures Served(judge, f + rest) == [r] + Served(judge, rest)
  {
    assert (f + rest)[..COMMAND_SIZE] == f;
    assert (f + rest)[COMMAND_SIZE..] == rest;
  }

  /** The records that a stream cut after n bytes brings: those whose frames were written whole before the cut. */
  lemma {:induction false} ServedCut(judge: seq<Byte> -> Verdict, fs: seq<seq<Byte>>, rs: seq<HostRecord>,
                                     lens: seq<nat>, n: nat)
    requires Carries(judge, fs, rs) && Measures(lens, |fs|) && Harmless(lens) && n <= |Pieces(fs, lens)|
    ensures n / COMMAND_SIZE <= |Complete(rs, lens)|
    ensures n == |Pieces(fs, lens)| ==> n / COMMAND_SIZE == |Complete(rs, lens)|
    ensures Served(judge, Pieces(fs, lens)[..n]) == Complete(rs, lens)[..n / COMMAND_SIZE]
    decreases |fs|
  {
    PiecesLength(fs, lens);
    if Sum(lens) < COMMAND_SIZE {
      NoneComplete(rs, lens);
    } else {
      var rest := Pieces(fs[1..], lens[1..]);
      if lens[0] == 0 {
        assert Pieces(fs, lens) == rest;
        ServedCut(judge, fs[1..], rs[1..], lens[1..], n);
      } else if n >= COMMAND_SIZE {
        ServedCut(judge, fs[1..], rs[1..], lens[1..], n - COMMAND_SIZE);
        assert Pieces(fs, lens)[..n] == fs[0] + rest[..n - COMMAND_SIZE];
        ServedNext(judge, fs[0], rest[..n - COMMAND_SIZE], rs[0]);
      }
    }
  }

  lemma {:induction false} CompleteInOrder(rs: seq<HostRecord>, lens: seq<nat>)
    requires |lens| == |rs|
    ensures Relay.Subsequence(Complete(rs, lens), rs)
  {
    if rs != [] {
      CompleteInOrder(rs[1..], lens[1..]);
      Relay.SubsequenceCons(rs[0], Complete(rs[1..], lens[1..]), rs[1..]);
      assert [rs[0]] + rs[1..] == rs;
    }
  }

  lemma {:induction false} AllComplete(rs: seq<HostRecord>, lens: seq<nat>)
    requires |lens| == |rs| && forall i :: 0 <= i < |lens| ==> lens[i] == COMMAND_SIZE
    ensures Complete(rs, lens) == rs && Harmless(lens) && Sum(lens) == COMMAND_SIZE * |rs|
  {
    if rs != [] {
      AllComplete(rs[1..], lens[1..]);
    }
  }

  lemma {:induction false} NothingLeft(lens: seq<nat>)
    requires forall i :: 0 <= i < |lens| ==> lens[i] == 0
    ensures Sum(lens) == 0
  {
    if lens != [] {
      NothingLeft(lens[1..]);
    }
  }

  /** Failed writes do no harm if each moved nothing of its frame or nothing is written after it. */
  lemma {:induction false} AlignedIsHarmless(lens: seq<nat>)
    requires forall i :: 0 <= i < |lens| ==>
      lens[i] == 0 || lens[i] == COMMAND_SIZE || (lens[i] < COMMAND_SIZE && forall j :: i < j < |lens| ==> lens[j] == 0)
    ensures Harmless(lens)
  {
    if lens != [] {
      if 0 < lens[0] < COMMAND_SIZE {
        NothingLeft(lens[1..]);
      } else {
        AlignedIsHarmless(lens[1..]);
      }
    }
  }

  /** What the receiver makes of the bytes that arrive. */
  lemma Arrived(rs: seq<HostRecord>, lens: seq<nat>, arrived: seq<Byte>, got: seq<HostRecord>)
    requires AllSendable(rs) && Measures(lens, |rs|)
    requires arrived <= Pieces(Frames(rs), lens) && got <= Served(Judge, arrived)
    ensures |Pieces(Frames(rs), lens)| == Sum(lens)
    ensures Harmless(lens) ==>
      && Relay.Subsequence(got, rs) && got <= Complete(rs, lens) && |arrived| / COMMAND_SIZE <= |Complete(rs, lens)|
      && Served(Judge, arrived) == Complete(rs, lens)[..|arrived| / COMMAND_SIZE]
      && (|arrived| == Sum(lens) ==> Served(Judge, arrived) == Complete(rs, lens))
  {
    PiecesLength(Frames(rs), lens);
    if Harmless(lens) {
      FramesCarry(rs);
      ServedCut(Judge, Frames(rs), rs, lens, |arrived|);
      assert arrived == Pieces(Frames(rs), lens)[..|arrived|];
      CompleteInOrder(rs, lens);
      Relay.SubsequencePrefix(Complete(rs, lens), rs, |got|);
      assert got == Complete(rs, lens)[..|got|];
    }
  }

  /** Sends the records over one connection, cuts the stream, and serves what arrived. */
  method Exchange(rs: seq<HostRecord>, sender: Endian, receiver: Endian,
                  onWrite: seq<Outcome>, onRead: seq<Outcome>, cut: nat)
    returns (got: seq<HostRecord>, arrived: seq<Byte>)
    requires AllSendable(rs)
    ensures var sent := Pieces(Frames(rs), Lengths(onWrite, |rs|));
      arrived == if cut < |sent| then sent[..cut] else sent
    ensures got <= Served(Judge, arrived) && (NeverFails(onRead) ==> got == Served(Judge, arrived))
  {
    ghost var sent := Pieces(Frames(rs), Lengths(onWrite, |rs|));
    var out := new Socket([], onWrite);
    Send(out, sender, rs);
    assert out.output == [] + sent == sent;
    arrived := if cut < |out.output| then out.output[..cut] else out.output;
    var inp := new Socket(arrived, onRead);
    got := Serve(inp, receiver);
  }

  /**
   * Sender and receiver together. Unless a failed write leaves part of a frame that later bytes complete to a
   * command, the receiver gets exactly the records whose frames were written whole, as far as the cut allows:
   * some of the records sent, in order. If no call fails it gets all of them.
   */
  method Transfer(rs: seq<HostRecord>, sender: Endian, receiver: Endian,
                  onWrite: seq<Outcome>, onRead: seq<Outcome>, cut: nat) returns (got: seq<HostRecord>)
    requires AllSendable(rs)
    ensures var lens := Lengths(onWrite, |rs|); Harmless(lens) ==>
      && Relay.Subsequence(got, rs) && got <= Complete(rs, lens)
      && (NeverFails(onRead) && cut < Sum(lens) ==> |got| == cut / COMMAND_SIZE)
      && (NeverFails(onRead) && cut >= Sum(lens) ==> got == Complete(rs, lens))
    ensures NeverFails(onWrite) && NeverFails(onRead) ==>
      got == if cut < COMMAND_SIZE * |rs| then rs[..cut / COMMAND_SIZE] else rs
  {
    var arrived;
    got, arrived := Exchange(rs, sender, receiver, onWrite, onRead, cut);
    ghost var lens := Lengths(onWrite, |rs|);
    Arrived(rs, lens, arrived, got);
    if NeverFails(onWrite) {
      AllWhole(onWrite, |rs|);
      AllComplete(rs, lens);
    }
  }

  // ---- the other commands ----

  /**
   * What a whole command does, by the number in its first four bytes: 0 adds its record, 1 (REMOVE) and 2
   * (INFORMATION) are passed over, and any other ends the connection, whatever follows.
   */
  lemma ByCommand(f: seq<Byte>, rest: seq<Byte>)
    requires |f| == COMMAND_SIZE
    ensures var code := Four(f[0], f[1], f[2], f[3]);
      && (code == 0 ==> Served(Judge, f + rest) == [FromRaw(Decode(f).record)] + Served(Judge, rest))
      && (code == 1 || code == 2 ==> Served(Judge, f + rest) == Served(Judge, rest))
      && (code > 2 ==> Served(Judge, f + rest) == [])
  {
    assert (f + rest)[..COMMAND_SIZE] == f && (f + rest)[COMMAND_SIZE..] == rest;
    FourBytes(f[..4]);
    ServedStep(Judge, f + rest);
  }

  /** A command that is passed over does not cost the sender the records behind it, and an unknown one does. */
  method RemoveThenAdd(code: nat, other: seq<Byte>, r: HostRecord, e: Endian) returns (got: seq<HostRecord>)
    requires |other| == COMMAND_SIZE && Sendable(r)
    requires code == Four(other[0], other[1], other[2], other[3]) && code != 0
    ensures got == if code <= 2 then [r] else []
  {
    FrameRoundTrip(r);
    var s := new Socket(other + Frame(r), []);
    got := Serve(s, e);
    ByCommand(other, Frame(r));
    ServedNext(Judge, Frame(r), [], r);
    assert Frame(r) + [] == Frame(r);
    ServedShort(Judge, []);
  }

  // ---- frames that were written in part ----

  function Zeros(n: nat): seq<Byte> {
    seq(n, i => 0)
  }

  lemma ZeroWord()
    ensures FromBE([0, 0, 0, 0]) == 0
  {
    var b: seq<Byte> := [0, 0, 0, 0];
    assert b[..3] == [0, 0, 0] && [0, 0, 0][..2] == [0, 0] && [0, 0][..1] == [0];
    assert FromBE([0]) == 0 && FromBE([0, 0]) == 0 && FromBE([0, 0, 0]) == 0;
  }

  /** An ADD command with empty addresses is the frame of the record in it. */
  lemma Reframed(f: seq<Byte>)
    requires |f| == COMMAND_SIZE && Decode(f).code == ADD
    requires Decode(f).record.origin == Zeros(46) && Decode(f).record.ipaddr == Zeros(46)
    ensures var r := FromRaw(Decode(f).record); Sendable(r) && Frame(r) == f && Judge(f) == Add(r)
  {
    EncodeDecode(f);
    assert CString(Zeros(46)) == [] && Padded([]) == Zeros(46);
    assert ToRaw(FromRaw(Decode(f).record)) == Decode(f).record;
  }

  ghost predicate Uniform(fs: seq<seq<Byte>>, f: seq<Byte>) {
    Whole(fs) && forall i :: 0 <= i < |fs| ==> fs[i] == f
  }

  ghost predicate StartsZero(f: seq<Byte>) {
    |f| == COMMAND_SIZE && forall p :: 0 <= p < 140 ==> f[p] == 0
  }

  lemma {:induction false} EarlyZeros(f: seq<Byte>, fs: seq<seq<Byte>>, lens: seq<nat>, p: nat)
    requires StartsZero(f) && Uniform(fs, f) && Measures(lens, |fs|) && p < |Pieces(fs, lens)| && p < 140
    ensures Pieces(fs, lens)[p] == 0
    decreases |fs|
  {
    if p >= lens[0] {
      EarlyZeros(f, fs[1..], lens[1..], p - lens[0]);
    }
  }

  /** Some byte of the last word of a command that begins with a partial frame is zero. */
  lemma LastWordZero(f: seq<Byte>, fs: seq<seq<Byte>>, lens: seq<nat>) returns (p: nat)
    requires StartsZero(f) && Uniform(fs, f) && Measures(lens, |fs|) && fs != []
    requires 0 < lens[0] < COMMAND_SIZE && |Pieces(fs, lens)| >= COMMAND_SIZE
    ensures 140 <= p < COMMAND_SIZE && Pieces(fs, lens)[p] == 0
  {
    p := if lens[0] <= 140 then 140 else lens[0];
    EarlyZeros(f, fs[1..], lens[1..], p - lens[0]);
  }

  lemma OtherRecord(b: seq<Byte>, f: seq<Byte>, p: nat)
    requires |b| == |f| == COMMAND_SIZE && b[..4] == [0, 0, 0, 0] && 140 <= p < COMMAND_SIZE && b[p] != f[p]
    ensures Judge(b).Add? && Judge(b).record != FromRaw(Decode(f).record)
  {
    ZeroWord();
    IntWord(b[140..144]);
    IntWord(f[140..144]);
    assert b[140..144][p - 140] != f[140..144][p - 140];
  }

  predicate StartsInPart(lens: seq<nat>) {
    lens != [] && 0 < lens[0] < COMMAND_SIZE
  }

  /** A command pieced together after a partial write is an ADD, and not of the record that was sent. */
  ghost predicate Betrays(judge: seq<Byte> -> Verdict, f: seq<Byte>, r: HostRecord) {
    && |f| == COMMAND_SIZE && judge(f) == Add(r)
    && (forall fs, lens :: Uniform(fs, f) && Measures(lens, |fs|) && StartsInPart(lens) ==>
         |Pieces(fs, lens)| < COMMAND_SIZE || (
           var v := judge(Pieces(fs, lens)[..COMMAND_SIZE]); v.Add? && v.record != r))
  }

  lemma PiecedTogether(f: seq<Byte>, fs: seq<seq<Byte>>, lens: seq<nat>)
    requires StartsZero(f) && (forall p :: 140 <= p < COMMAND_SIZE ==> f[p] != 0)
    requires Uniform(fs, f) && Measures(lens, |fs|) && StartsInPart(lens) && |Pieces(fs, lens)| >= COMMAND_SIZE
    ensures var v := Judge(Pieces(fs, lens)[..COMMAND_SIZE]); v.Add? && v.record != FromRaw(Decode(f).record)
  {
    var b := Pieces(fs, lens)[..COMMAND_SIZE];
    EarlyZeros(f, fs, lens, 0);
    EarlyZeros(f, fs, lens, 1);
    EarlyZeros(f, fs, lens, 2);
    EarlyZeros(f, fs, lens, 3);
    var p := LastWordZero(f, fs, lens);
    OtherRecord(b, f, p);
  }

  lemma FrameBetrays(f: seq<Byte>)
    requires StartsZero(f) && (forall p :: 140 <= p < COMMAND_SIZE ==> f[p] != 0)
    requires Judge(f) == Add(FromRaw(Decode(f).record))
    ensures Betrays(Judge, f, FromRaw(Decode(f).record))
  {
    forall fs, lens | Uniform(fs, f) && Measures(lens, |fs|) && StartsInPart(lens)
      ensures |Pieces(fs, lens)| < COMMAND_SIZE || (
        var v := Judge(Pieces(fs, lens)[..COMMAND_SIZE]); v.Add? && v.record != FromRaw(Decode(f).record))
    {
      if |Pieces(fs, lens)| >= COMMAND_SIZE {
        PiecedTogether(f, fs, lens);
      }
    }
  }

  lemma {:induction false} Misled(judge: seq<Byte> -> Verdict, f: seq<Byte>, r: HostRecord,
                                  fs: seq<seq<Byte>>, lens: seq<nat>) returns (k: nat)
    requires Betrays(judge, f, r) && Uniform(fs, f) && Measures(lens, |fs|) && !Harmless(lens)
    ensures k < |Served(judge, Pieces(fs, lens))| && Served(judge, Pieces(fs, lens))[k] != r
    decreases |fs|
  {
    PiecesLength(fs, lens);
    if 0 < lens[0] < COMMAND_SIZE {
      k := 0;
    } else {
      k := Misled(judge, f, r, fs[1..], lens[1..]);
      var rest := Pieces(fs[1..], lens[1..]);
      if lens[0] == 0 {
        assert Pieces(fs, lens) == rest;
      } else {
        ServedNext(judge, fs[0], rest, r);
        assert Pieces(fs, lens) == fs[0] + rest;
        k := k + 1;
      }
    }
  }

  lemma NotSelected(judge: seq<Byte> -> Verdict, f: seq<Byte>, r: HostRecord,
                    fs: seq<seq<Byte>>, lens: seq<nat>, rs: seq<HostRecord>)
    requires Betrays(judge, f, r) && Uniform(fs, f) && Measures(lens, |fs|) && !Harmless(lens)
    requires forall x :: x in rs ==> x == r
    ensures !Relay.Subsequence(Served(judge, Pieces(fs, lens)), rs)
  {
    var got := Served(judge, Pieces(fs, lens));
    var k := Misled(judge, f, r, fs, lens);
    if Relay.Subsequence(got, rs) {
      Relay.SubsequenceMember(got, rs, k);
    }
  }

  lemma UniformFrames(f: seq<Byte>, r: HostRecord, n: nat) returns (rs: seq<HostRecord>)
    requires Sendable(r) && Frame(r) == f
    ensures |rs| == n && AllSendable(rs) && Uniform(Frames(rs), f) && forall x :: x in rs ==> x == r
  {
    rs := seq(n, i => r);
  }

  /** A frame whose last word has no zero byte, and all of whose other bytes are zero. */
  lemma Probe() returns (f: seq<Byte>, r: HostRecord)
    ensures Sendable(r) && Frame(r) == f && Betrays(Judge, f, r)
  {
    f := Zeros(140) + [1, 1, 1, 1];
    assert f[..4] == [0, 0, 0, 0] && f[4..50] == Zeros(46) && f[50..96] == Zeros(46);
    ZeroWord();
    Reframed(f);
    FrameBetrays(f);
    r := FromRaw(Decode(f).record);
  }

  lemma HarmfulMisleads(lens: seq<nat>) returns (rs: seq<HostRecord>)
    requires Measures(lens, |lens|) && !Harmless(lens)
    ensures |rs| == |lens| && AllSendable(rs)
    ensures !Relay.Subsequence(Served(Judge, Pieces(Frames(rs), lens)), rs)
  {
    var f, r := Probe();
    rs := UniformFrames(f, r, |lens|);
    NotSelected(Judge, f, r, Frames(rs), lens, rs);
  }

  /**
   * What the receiver adds is an in-order selection of what was sent, whatever that was, exactly if the bytes
   * written from the first partial frame on do not make up a whole command.
   */
  lemma SelectionExactly(lens: seq<nat>)
    requires Measures(lens, |lens|)
    ensures Harmless(lens) <==>
      forall rs :: |rs| == |lens| && AllSendable(rs) ==>
        Relay.Subsequence(Served(Judge, Pieces(Frames(rs), lens)), rs)
  {
    if Harmless(lens) {
      forall rs | |rs| == |lens| && AllSendable(rs)
        ensures Relay.Subsequence(Served(Judge, Pieces(Frames(rs), lens)), rs)
      {
        Arrived(rs, lens, Pieces(Frames(rs), lens), Served(Judge, Pieces(Frames(rs), lens)));
      }
    } else {
      var rs := HarmfulMisleads(lens);
    }
  }

  /** Every such pattern of lengths is some behaviour of the connection. */
  lemma {:induction false} ScriptFor(lens: seq<nat>) returns (script: seq<Outcome>)
    requires Measures(lens, |lens|)
    ensures Lengths(script, |lens|) == lens
    decreases |lens|
  {
    if lens == [] {
      script := [];
    } else {
      var rest := ScriptFor(lens[1..]);
      var one := Moves(lens[0]);
      if lens[0] == 0 {
        script := [Fails] + rest;
      } else if lens[0] == COMMAND_SIZE {
        script := [one] + rest;
      } else {
        script := [one] + ([Fails] + rest);
        assert script[1..] == [Fails] + rest && ([Fails] + rest)[1..] == rest;
      }
      assert Written(script, COMMAND_SIZE) == Transferred(lens[0], rest);
    }
  }

  lemma FrameHead(r: HostRecord)
    requires Sendable(r)
    ensures |Frame(r)| == COMMAND_SIZE && Frame(r)[..4] == [0, 0, 0, 0] && Frame(r)[49] == 0
  {
    DecodeEncode(ADD, ToRaw(r));
    var f := Frame(r);
    assert f[49] == f[4..50][45] && f[4..50] == Padded(r.origin);
    assert BE(0, 1) == BE(0, 0) + [0];
    assert BE(0, 2) == BE(0, 1) + [0];
    assert BE(0, 3) == BE(0, 2) + [0];
    assert BE(0, 4) == BE(0, 3) + [0];
    BEBytes(f[..4]);
  }

  lemma ShiftedFrame(f: seq<Byte>)
    requires |f| == COMMAND_SIZE && f[..4] == [0, 0, 0, 0] && f[49] == 0
    ensures var v := Judge((f[..1] + f)[..COMMAND_SIZE]); v.Add? && v.record.ipaddr == []
    ensures |Served(Judge, f[..1] + f)| == 1 && Served(Judge, f[..1] + f)[0].ipaddr == []
  {
    var b := (f[..1] + f)[..COMMAND_SIZE];
    assert b[..4] == f[..4];
    ZeroWord();
    assert b[50..96][0] == f[49];
  }

  lemma PartThenWhole(script: seq<Outcome>, part: nat, n: nat)
    requires n == 2 && 0 < part < COMMAND_SIZE && script == [Moves(part), Fails]
    ensures Lengths(script, n) == [part, COMMAND_SIZE]
  {
    var failed := script[1..];
    var end := failed[1..];
    assert Written(failed, COMMAND_SIZE - part) == Transferred(0, end);
    assert Written(script, COMMAND_SIZE) == Transferred(part, end);
    assert NeverFails(end);
    AllWhole(end, n - 1);
  }

  lemma TwoPieces(fs: seq<seq<Byte>>, part: nat)
    requires Whole(fs) && |fs| == 2 && part <= COMMAND_SIZE
    ensures Measures([part, COMMAND_SIZE], 2) && Pieces(fs, [part, COMMAND_SIZE]) == fs[0][..part] + fs[1]
  {
    var lens := [part, COMMAND_SIZE];
    assert Pieces(fs[1..], lens[1..]) == fs[1] + Pieces(fs[2..], lens[2..]);
  }

  lemma MisledStream(r: HostRecord, rs: seq<HostRecord>, script: seq<Outcome>)
    requires Sendable(r) && rs == [r, r] && script == [Moves(1), Fails]
    ensures var sent := Pieces(Frames(rs), Lengths(script, |rs|));
      |sent| <= 2 * COMMAND_SIZE && |Served(Judge, sent)| == 1 && Served(Judge, sent)[0].ipaddr == []
  {
    var fs, part := Frames(rs), 1;
    FrameHead(r);
    PartThenWhole(script, part, |rs|);
    TwoPieces(fs, part);
    ShiftedFrame(fs[0]);
  }

  /**
   * The send loop goes on after a failed write. If one byte of a frame got out before the error and the
   * next write succeeds, then whatever the record, the receiver adds one for the empty address.
   */
  method PartialWriteMisleads(r: HostRecord, sender: Endian, receiver: Endian) returns (got: seq<HostRecord>)
    requires Sendable(r)
    ensures |got| == 1 && got[0].ipaddr == []
  {
    var rs, script := [r, r], [Moves(1), Fails];
    MisledStream(r, rs, script);
    var arrived;
    got, arrived := Exchange(rs, sender, receiver, script, [], 2 * COMMAND_SIZE);
  }
}
