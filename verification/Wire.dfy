/** The 144-byte wire format: byte order, the codec and its two inverses. */
module Wire {
  import opened Base

  // ---- integers as bytes ----

  function Pow256(n: nat): nat {
    if n == 0 then 1 else 256 * Pow256(n - 1)
  }

  /** Least significant byte first, as a little-endian host stores a word. */
  function LE(v: nat, n: nat): seq<Byte> {
    if n == 0 then [] else [v % 256] + LE(v / 256, n - 1)
  }

  /** Most significant byte first, as a big-endian host stores a word and as the network wants it. */
  function BE(v: nat, n: nat): seq<Byte> {
    if n == 0 then [] else BE(v / 256, n - 1) + [v % 256]
  }

  function FromLE(b: seq<Byte>): nat {
    if b == [] then 0 else b[0] + 256 * FromLE(b[1..])
  }

  function FromBE(b: seq<Byte>): nat {
    if b == [] then 0 else 256 * FromBE(b[..|b| - 1]) + b[|b| - 1]
  }

  function Reverse(b: seq<Byte>): seq<Byte> {
    if b == [] then [] else Reverse(b[1..]) + [b[0]]
  }

  lemma {:induction false} LengthLE(v: nat, n: nat)
    ensures |LE(v, n)| == n
  {
    if n > 0 { LengthLE(v / 256, n - 1); }
  }

  lemma {:induction false} LengthBE(v: nat, n: nat)
    ensures |BE(v, n)| == n
  {
    if n > 0 { LengthBE(v / 256, n - 1); }
  }

  lemma {:induction false} BEValue(v: nat, n: nat)
    requires v < Pow256(n)
    ensures FromBE(BE(v, n)) == v
  {
    if n > 0 {
      BEValue(v / 256, n - 1);
      assert BE(v, n)[..|BE(v, n)| - 1] == BE(v / 256, n - 1);
    }
  }

  lemma {:induction false} BEBytes(b: seq<Byte>)
    ensures FromBE(b) < Pow256(|b|) && BE(FromBE(b), |b|) == b
  {
    if b != [] {
      BEBytes(b[..|b| - 1]);
      assert b == b[..|b| - 1] + [b[|b| - 1]];
    }
  }

  lemma {:induction false} ReversedLE(v: nat, n: nat)
    ensures Reverse(LE(v, n)) == BE(v, n)
  {
    if n > 0 {
      ReversedLE(v / 256, n - 1);
      assert LE(v, n)[1..] == LE(v / 256, n - 1);
    }
  }

  lemma {:induction false} ReverseSnoc(b: seq<Byte>, x: Byte)
    ensures Reverse(b + [x]) == [x] + Reverse(b)
  {
    if b != [] {
      ReverseSnoc(b[1..], x);
      assert (b + [x])[1..] == b[1..] + [x];
    } else {
      assert b + [x] == [x];
    }
  }

  lemma {:induction false} ReverseTwice(b: seq<Byte>)
    ensures Reverse(Reverse(b)) == b && |Reverse(b)| == |b|
  {
    if b != [] {
      ReverseTwice(b[1..]);
      ReverseSnoc(Reverse(b[1..]), b[0]);
    }
  }

  lemma {:induction false} ReverseAt(b: seq<Byte>, i: nat)
    requires i < |b|
    ensures |Reverse(b)| == |b| && Reverse(b)[i] == b[|b| - 1 - i]
  {
    ReverseTwice(b);
    if i < |b| - 1 {
      ReverseAt(b[1..], i);
    } else if |b| > 1 {
      ReverseTwice(b[1..]);
    }
  }

  /** The value a little-endian host reads from bytes is the one a big-endian host reads from them reversed. */
  lemma {:induction false} FromReversed(b: seq<Byte>)
    ensures FromLE(Reverse(b)) == FromBE(b)
  {
    if b != [] {
      var n := |b| - 1;
      FromReversed(b[..n]);
      assert b == b[..n] + [b[n]];
      ReverseSnoc(b[..n], b[n]);
      assert ([b[n]] + Reverse(b[..n]))[1..] == Reverse(b[..n]);
    }
  }

  /** The number written with these four bytes, the most significant first. */
  function Four(a: int, b: int, c: int, d: int): int {
    0x100_0000 * a + 0x1_0000 * b + 0x100 * c + d
  }

  lemma FourBytes(b: seq<Byte>)
    requires |b| == 4
    ensures FromBE(b) == Four(b[0], b[1], b[2], b[3])
  {
    assert b[..3][..2] == b[..2] && b[..2][..1] == b[..1];
    assert FromBE(b[..1]) == b[0] && FromBE(b[..2]) == 256 * FromBE(b[..1]) + b[1];
    assert FromBE(b[..3]) == 256 * FromBE(b[..2]) + b[2];
  }

  lemma Times256(q: nat, p: nat)
    ensures 256 * (q * p) == q * (256 * p)
  {
  }

  lemma {:induction false} FromBEConcat(a: seq<Byte>, b: seq<Byte>)
    ensures FromBE(a + b) == FromBE(a) * Pow256(|b|) + FromBE(b)
  {
    if b == [] {
      assert a + b == a;
    } else {
      var n := |b| - 1;
      FromBEConcat(a, b[..n]);
      assert (a + b)[..|a + b| - 1] == a + b[..n];
      Times256(FromBE(a), Pow256(n));
    }
  }

  lemma EightBytes(b: seq<Byte>)
    requires |b| == 8
    ensures FromBE(b) == 0x1_0000_0000 * Four(b[0], b[1], b[2], b[3]) + Four(b[4], b[5], b[6], b[7])
  {
    var high, low := b[..4], b[4..];
    FourBytes(high);
    FourBytes(low);
    Halves(high, low);
    assert b == high + low;
  }

  lemma Halves(high: seq<Byte>, low: seq<Byte>)
    requires |low| == 4
    ensures FromBE(high + low) == 0x1_0000_0000 * FromBE(high) + FromBE(low)
  {
    FromBEConcat(high, low);
    assert Pow256(4) == 0x1_0000_0000;
  }

  // ---- host byte order ----

  datatype Endian = Little | Big

  /** The bytes of an n-byte word in host memory. */
  function Stored(e: Endian, v: nat, n: nat): seq<Byte> {
    if e.Little? then LE(v, n) else BE(v, n)
  }

  function Loaded(e: Endian, b: seq<Byte>): nat {
    if e.Little? then FromLE(b) else FromBE(b)
  }

  /** htonl and htonll: the identity on big-endian hosts, a byte reversal on little-endian ones. */
  function Hton(e: Endian, v: nat, n: nat): nat {
    if e.Little? then FromLE(Reverse(LE(v, n))) else v
  }

  /** Whatever the host, what is copied to the wire is the big-endian form. */
  lemma NetworkOrder(e: Endian, v: nat, n: nat)
    ensures Stored(e, Hton(e, v, n), n) == BE(v, n)
  {
    if e.Little? {
      ReversedLE(v, n);
      FromReversed(LE(v, n));
      var b := BE(v, n);
      LengthBE(v, n);
      ReverseTwice(b);
      FromReversed(Reverse(b));
      BEBytes(Reverse(b));
      ReversedLE(FromLE(b), n);
      ReverseTwice(LE(FromLE(b), n));
    }
  }

  lemma HostOrder(e: Endian, b: seq<Byte>)
    ensures Hton(e, Loaded(e, b), |b|) == FromBE(b)
  {
    if e.Little? {
      ReverseTwice(b);
      FromReversed(Reverse(b));
      BEBytes(Reverse(b));
      ReversedLE(FromLE(b), |b|);
      FromReversed(b);
    }
  }

  /** htonll undoes itself. */
  lemma HtonTwice(e: Endian, v: nat, n: nat)
    requires v < Pow256(n)
    ensures Hton(e, Hton(e, v, n), n) == v
  {
    LengthBE(v, n);
    NetworkOrder(e, v, n);
    HostOrder(e, BE(v, n));
    BEValue(v, n);
    if e.Little? {
      ReversedLE(v, n);
    }
  }

  /** The little-endian htonll: eight bytes copied in reverse. */
  method Htonll(a: nat) returns (b: nat)
    requires a < Pow256(8)
    ensures b == Hton(Little, a, 8)
    ensures LE(b, 8) == BE(a, 8)
  {
    LengthLE(a, 8);
    var sa := LE(a, 8);
    var sb := new Byte[8](i => 0);
    for i := 0 to 8
      invariant forall j :: 0 <= j < i ==> sb[j] == sa[7 - j]
    {
      sb[i] := sa[7 - i];
    }
    ghost var r := Reverse(sa);
    ReverseTwice(sa);
    forall j | 0 <= j < 8
      ensures sb[..][j] == r[j]
    {
      ReverseAt(sa, j);
    }
    assert sb[..] == r;
    b := FromLE(sb[..]);
    NetworkOrder(Little, a, 8);
  }
}
