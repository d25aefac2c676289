/** Cutting the followed log into chunks for the matcher, across any number of reads. */
module LineChunker {
  import opened Base

  const BUFFSIZE := 1024
  const LIMIT := BUFFSIZE - 1
  const NEWLINE: Byte := 10

  /** The length of the first line with its newline; one more than what is there if it has none. */
  function Line(s: seq<Byte>): nat {
    if s == [] || s[0] == NEWLINE then 1 else 1 + Line(s[1..])
  }

  /** How many bytes the first chunk takes, or 0 if there is no whole chunk yet. */
  function FirstChunk(s: seq<Byte>): (n: nat)
    ensures n <= |s|
  {
    var end := Line(s);
    if end <= LIMIT && end <= |s| then end else if LIMIT <= |s| then LIMIT else 0
  }

  datatype Cut = Cut(chunks: seq<seq<Byte>>, rest: seq<Byte>)

  /** Any way to tell the length of the first chunk, 0 for none. */
  type Cutter = seq<Byte> -> nat

  /** The one-shot specification: take first chunks off the stream until none is left. */
  function Split(first: Cutter, s: seq<Byte>): Cut {
    var n := first(s);
    if n == 0 || n > |s| then Cut([], s)
    else var tail := Split(first, s[n..]); Cut([s[..n]] + tail.chunks, tail.rest)
  }

  function Joined(chunks: seq<seq<Byte>>): seq<Byte> {
    if chunks == [] then [] else chunks[0] + Joined(chunks[1..])
  }

  predicate NoNewline(s: seq<Byte>) {
    NEWLINE !in s
  }

  predicate GoodChunk(c: seq<Byte>) {
    && 1 <= |c| <= LIMIT
    && NoNewline(c[..|c| - 1])
    && (|c| == LIMIT || c[|c| - 1] == NEWLINE)
  }

  lemma {:induction false} LineMeans(s: seq<Byte>)
    ensures 1 <= Line(s) <= |s| + 1
    ensures NoNewline(s[..Line(s) - 1])
    ensures Line(s) <= |s| ==> s[Line(s) - 1] == NEWLINE
  {
    if s != [] && s[0] != NEWLINE {
      LineMeans(s[1..]);
      assert s[..Line(s) - 1] == [s[0]] + s[1..][..Line(s[1..]) - 1];
    }
  }

  lemma {:induction false} LineIs(s: seq<Byte>, n: nat)
    requires n <= |s| && NoNewline(s[..n])
    ensures Line(s) >= n + 1
    ensures n < |s| && s[n] == NEWLINE ==> Line(s) == n + 1
  {
    if n > 0 {
      assert s[..n] == [s[0]] + s[1..][..n - 1];
      LineIs(s[1..], n - 1);
    }
  }

  /** The first chunk is a line or a full buffer; without one, the bytes are few and hold no newline. */
  lemma ChunkMeans(s: seq<Byte>)
    ensures var n := FirstChunk(s);
      if n == 0 then |s| < LIMIT && NoNewline(s) else GoodChunk(s[..n])
  {
    LineMeans(s);
    var n := FirstChunk(s);
    if n == 0 {
      assert s[..Line(s) - 1] == s;
    } else {
      assert s[..n][..n - 1] == s[..Line(s) - 1][..n - 1];
    }
  }

  /** A byte appended leaves the first chunk alone, or completes it, or is still not enough. */
  lemma ChunkNext(s: seq<Byte>, c: Byte)
    ensures FirstChunk(s + [c]) ==
      if FirstChunk(s) > 0 then FirstChunk(s)
      else if |s| + 1 == LIMIT || c == NEWLINE then |s| + 1
      else 0
  {
    LineMeans(s);
    var t := s + [c];
    assert t[..Line(s) - 1] == s[..Line(s) - 1];
    LineIs(t, Line(s) - 1);
    LineMeans(t);
  }

  // ---- splitting, for any cutter that never changes its mind ----

  /** A byte appended leaves a first chunk alone, and completes at most the one it ends. */
  ghost predicate Steady(first: Cutter, s: seq<Byte>, c: Byte) {
    && first(s) <= |s| && first([]) == 0
    && (first(s) > 0 ==> first(s + [c]) == first(s))
    && (first(s) == 0 ==> first(s + [c]) == 0 || first(s + [c]) == |s| + 1)
  }

  ghost predicate Online(first: Cutter) {
    forall s: seq<Byte>, c: Byte :: Steady(first, s, c)
  }

  /** One more byte either completes a chunk or joins the pending ones. */
  function Next(first: Cutter, cut: Cut, c: Byte): Cut {
    var r := cut.rest + [c];
    if first(r) > 0 then Cut(cut.chunks + [r], []) else Cut(cut.chunks, r)
  }

  lemma NextShift(first: Cutter, chunks: seq<seq<Byte>>, rest: seq<Byte>, c: Byte)
    ensures var next := Next(first, Cut([], rest), c);
      Next(first, Cut(chunks, rest), c) == Cut(chunks + next.chunks, next.rest)
  {
  }

  lemma {:induction false} SplitNext(first: Cutter, s: seq<Byte>, c: Byte)
    requires Online(first)
    ensures Split(first, s + [c]) == Next(first, Split(first, s), c)
    decreases |s|
  {
    var t, n := s + [c], first(s);
    assert Steady(first, s, c);
    if n == 0 {
      if first(t) > 0 {
        assert t[..|t|] == t && t[|t|..] == [];
      }
    } else {
      SplitNext(first, s[n..], c);
      assert t[..n] == s[..n] && t[n..] == s[n..] + [c];
    }
  }

  /** Feeding bytes one at a time. */
  function Fed(first: Cutter, cut: Cut, s: seq<Byte>): Cut {
    if s == [] then cut else Next(first, Fed(first, cut, s[..|s| - 1]), s[|s| - 1])
  }

  lemma FedStep(first: Cutter, cut: Cut, s: seq<Byte>, i: nat)
    requires i < |s|
    ensures Fed(first, cut, s[..i + 1]) == Next(first, Fed(first, cut, s[..i]), s[i])
  {
    assert s[..i + 1][..i] == s[..i];
  }

  lemma {:induction false} FedConcat(first: Cutter, cut: Cut, a: seq<Byte>, b: seq<Byte>)
    ensures Fed(first, Fed(first, cut, a), b) == Fed(first, cut, a + b)
    decreases |b|
  {
    if b == [] {
      assert a + b == a;
    } else {
      var n := |b| - 1;
      FedConcat(first, cut, a, b[..n]);
      assert (a + b)[..|a + b| - 1] == a + b[..n];
    }
  }

  lemma {:induction false} FedShift(first: Cutter, chunks: seq<seq<Byte>>, rest: seq<Byte>, s: seq<Byte>)
    ensures var fed := Fed(first, Cut([], rest), s);
      Fed(first, Cut(chunks, rest), s) == Cut(chunks + fed.chunks, fed.rest)
    decreases |s|
  {
    if s != [] {
      var n := |s| - 1;
      FedShift(first, chunks, rest, s[..n]);
      var fed := Fed(first, Cut([], rest), s[..n]);
      NextShift(first, chunks + fed.chunks, fed.rest, s[n]);
      NextShift(first, fed.chunks, fed.rest, s[n]);
    }
  }

  lemma FedMore(first: Cutter, start: Cut, seen: seq<Byte>, cut: Cut, piece: seq<Byte>, more: Cut)
    requires cut == Fed(first, start, seen) && more == Fed(first, Cut([], cut.rest), piece)
    ensures Cut(cut.chunks + more.chunks, more.rest) == Fed(first, start, seen + piece)
  {
    FedConcat(first, start, seen, piece);
    FedShift(first, cut.chunks, cut.rest, piece);
  }

  /** The byte-wise and the one-shot cut agree. */
  lemma {:induction false} FedIsSplit(first: Cutter, pending: seq<Byte>, s: seq<Byte>)
    requires Online(first) && first(pending) == 0
    ensures Fed(first, Cut([], pending), s) == Split(first, pending + s)
    decreases |s|
  {
    if s == [] {
      assert pending + s == pending;
    } else {
      var n := |s| - 1;
      FedIsSplit(first, pending, s[..n]);
      SplitNext(first, pending + s[..n], s[n]);
      assert pending + s == pending + s[..n] + [s[n]];
    }
  }

  lemma {:induction false} RestUnfinished(first: Cutter, s: seq<Byte>)
    requires Online(first)
    ensures Split(first, Split(first, s).rest) == Cut([], Split(first, s).rest)
    decreases |s|
  {
    assert Steady(first, s, 0);
    if first(s) > 0 {
      RestUnfinished(first, s[first(s)..]);
    }
  }

  /** Splitting what came later after what was pending is splitting everything at once. */
  lemma {:induction false} SplitResumes(first: Cutter, a: seq<Byte>, b: seq<Byte>)
    requires Online(first)
    ensures var later := Split(first, Split(first, a).rest + b);
      Split(first, a + b) == Cut(Split(first, a).chunks + later.chunks, later.rest)
    decreases |b|
  {
    var r := Split(first, a).rest;
    if b == [] {
      assert a + b == a && r + b == r;
      RestUnfinished(first, a);
    } else {
      var m := |b| - 1;
      SplitResumes(first, a, b[..m]);
      assert a + b == (a + b[..m]) + [b[m]];
      assert r + b == (r + b[..m]) + [b[m]];
      SplitNext(first, a + b[..m], b[m]);
      SplitNext(first, r + b[..m], b[m]);
    }
  }

  lemma {:induction false} JoinedNext(pieces: seq<seq<Byte>>, piece: seq<Byte>)
    ensures Joined(pieces + [piece]) == Joined(pieces) + piece
  {
    if pieces == [] {
      assert pieces + [piece] == [piece] && [piece][1..] == [];
    } else {
      JoinedNext(pieces[1..], piece);
      assert (pieces + [piece])[1..] == pieces[1..] + [piece];
    }
  }

  lemma {:induction false} SplitJoins(first: Cutter, s: seq<Byte>)
    ensures Joined(Split(first, s).chunks) + Split(first, s).rest == s
    decreases |s|
  {
    var n := first(s);
    if 0 < n <= |s| {
      SplitJoins(first, s[n..]);
      var tail := Split(first, s[n..]).chunks;
      assert ([s[..n]] + tail)[1..] == tail;
      assert s == s[..n] + s[n..];
    }
  }

  // ---- the chunker's cutter ----

  lemma FirstChunkOnline()
    ensures Online(FirstChunk)
  {
    forall s: seq<Byte>, c: Byte
      ensures Steady(FirstChunk, s, c)
    {
      ChunkNext(s, c);
      assert FirstChunk([]) == 0;
    }
  }

  /** Every chunk is a line or a full buffer, and what is left holds no whole chunk. */
  lemma {:induction false} SplitFacts(s: seq<Byte>)
    ensures forall i :: 0 <= i < |Split(FirstChunk, s).chunks| ==> GoodChunk(Split(FirstChunk, s).chunks[i])
    ensures |Split(FirstChunk, s).rest| < LIMIT && NoNewline(Split(FirstChunk, s).rest)
    decreases |s|
  {
    ChunkMeans(s);
    if FirstChunk(s) > 0 {
      SplitFacts(s[FirstChunk(s)..]);
    }
  }

  /** Bytes without a whole chunk stay pending. */
  lemma Unfinished(r: seq<Byte>)
    requires |r| < LIMIT && NoNewline(r)
    ensures FirstChunk(r) == 0
  {
    assert r[..|r|] == r;
    LineIs(r, |r|);
  }

  /** The static buffer and its fill, which survive from call to call. */
  class Chunker {
    const buff: array<Byte>
    var buffpos: nat

    ghost predicate Valid()
      reads this, buff
    {
      buff.Length == BUFFSIZE && buffpos < LIMIT && NoNewline(buff[..buffpos])
    }

    ghost function Pending(): seq<Byte>
      reads this, buff
      requires Valid()
    {
      buff[..buffpos]
    }

    constructor ()
      ensures Valid() && Pending() == []
    {
      buff := new Byte[BUFFSIZE](i => 0);
      buffpos := 0;
    }

    /** One byte into the buffer; a full buffer or a newline hands it to the matcher. */
    method Take(c: Byte) returns (emitted: seq<seq<Byte>>)
      requires Valid()
      modifies this`buffpos, buff
      ensures Valid()
      ensures Cut(emitted, Pending()) == Next(FirstChunk, Cut([], old(Pending())), c)
    {
      emitted := [];
      ghost var r := Pending();
      Unfinished(r);
      ChunkNext(r, c);
      buff[buffpos] := c;
      buffpos := buffpos + 1;
      assert buff[..buffpos] == r + [c];
      if buffpos == LIMIT || c == NEWLINE {
        emitted := [buff[..buffpos]];
        buff[buffpos] := 0;
        buffpos := 0;
      }
    }

    /** Consumes the bytes that can be read now; `chunks` is what the matcher was called with. */
    method ReadToEof(input: seq<Byte>) returns (chunks: seq<seq<Byte>>)
      requires Valid()
      modifies this`buffpos, buff
      ensures Valid()
      ensures Cut(chunks, Pending()) == Fed(FirstChunk, Cut([], old(Pending())), input)
      ensures Cut(chunks, Pending()) == Split(FirstChunk, old(Pending()) + input)
    {
      chunks := [];
      ghost var start := Cut([], Pending());
      for i := 0 to |input|
        invariant Valid()
        invariant Cut(chunks, Pending()) == Fed(FirstChunk, start, input[..i])
      {
        FedStep(FirstChunk, start, input, i);
        NextShift(FirstChunk, chunks, Pending(), input[i]);
        var emitted := Take(input[i]);
        chunks := chunks + emitted;
      }
      assert input[..|input|] == input;
      Unfinished(start.rest);
      FirstChunkOnline();
      FedIsSplit(FirstChunk, start.rest, input);
    }

    /** Any number of reads, however the stream is divided among them, gives the one-shot cut of the whole. */
    method ReadAll(pieces: seq<seq<Byte>>) returns (chunks: seq<seq<Byte>>)
      requires Valid() && Pending() == []
      modifies this`buffpos, buff
      ensures Valid() && Cut(chunks, Pending()) == Split(FirstChunk, Joined(pieces))
    {
      chunks := [];
      ghost var start, seen := Cut([], []), [];
      for i := 0 to |pieces|
        invariant Valid() && seen == Joined(pieces[..i])
        invariant Cut(chunks, Pending()) == Fed(FirstChunk, start, seen)
      {
        ghost var cut := Cut(chunks, Pending());
        var more := ReadToEof(pieces[i]);
        FedMore(FirstChunk, start, seen, cut, pieces[i], Cut(more, Pending()));
        JoinedNext(pieces[..i], pieces[i]);
        assert pieces[..i + 1] == pieces[..i] + [pieces[i]];
        chunks := chunks + more;
        seen := seen + pieces[i];
      }
      assert pieces[..|pieces|] == pieces;
      FirstChunkOnline();
      FedIsSplit(FirstChunk, [], seen);
      assert [] + seen == seen;
    }
  }
}
