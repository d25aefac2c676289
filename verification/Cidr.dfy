/** Address prefixes: the mask arithmetic against "the first p bits are equal". */
module Cidr {
  // ---- bits of addresses, in network order ----

  /** Bit j of a byte, the most significant first. */
  predicate ByteBit(x: bv8, j: nat)
    requires j < 8
  {
    match j
    case 0 => x & 0x80 != 0
    case 1 => x & 0x40 != 0
    case 2 => x & 0x20 != 0
    case 3 => x & 0x10 != 0
    case 4 => x & 0x08 != 0
    case 5 => x & 0x04 != 0
    case 6 => x & 0x02 != 0
    case _ => x & 0x01 != 0
  }

  /** Bit j of an address given as its bytes in network order. */
  predicate AddressBit(bytes: seq<bv8>, j: nat)
    requires j < 8 * |bytes|
  {
    ByteBit(bytes[j / 8], j % 8)
  }

  /** The first `prefix` bits of the two addresses are equal. */
  predicate SamePrefix(net: seq<bv8>, ip: seq<bv8>, prefix: nat)
    requires |net| == |ip| && prefix <= 8 * |net|
  {
    forall j :: 0 <= j < prefix ==> (AddressBit(net, j) <==> AddressBit(ip, j))
  }

  /** A byte whose first m bits are set. */
  function LeadingOnes(m: nat): bv8
    requires m <= 8
  {
    match m
    case 0 => 0x00 case 1 => 0x80 case 2 => 0xc0 case 3 => 0xe0 case 4 => 0xf0
    case 5 => 0xf8 case 6 => 0xfc case 7 => 0xfe case _ => 0xff
  }

  /** Byte k of the mask for a prefix. */
  function MaskByte(prefix: nat, k: nat): bv8 {
    if prefix <= 8 * k then 0 else if 8 * k + 8 <= prefix then 0xff else LeadingOnes(prefix - 8 * k)
  }

  predicate IsMask(mask: seq<bv8>, prefix: nat) {
    forall k :: 0 <= k < |mask| ==> mask[k] == MaskByte(prefix, k)
  }

  predicate MaskedEqual(net: seq<bv8>, mask: seq<bv8>, ip: seq<bv8>)
    requires |net| == |mask| == |ip|
  {
    forall k :: 0 <= k < |net| ==> net[k] & mask[k] == ip[k] & mask[k]
  }

  /** How many bits of byte k lie below the prefix. */
  function BitsIn(prefix: nat, k: nat): (m: nat)
    ensures m <= 8
  {
    if prefix <= 8 * k then 0 else if 8 * k + 8 <= prefix then 8 else prefix - 8 * k
  }

  lemma ShiftedOnes(m: nat)
    requires 1 <= m <= 8
    ensures 0xff << (8 - m) == LeadingOnes(m)
  {
    match m
    case 1 => case 2 => case 3 => case 4 => case 5 => case 6 => case 7 => case 8 =>
  }

  lemma EqualUnder(x: bv8, y: bv8)
    ensures x & 0x80 == y & 0x80 <==> x & 0x00 == y & 0x00 && (x & 0x80 != 0 <==> y & 0x80 != 0)
    ensures x & 0xc0 == y & 0xc0 <==> x & 0x80 == y & 0x80 && (x & 0x40 != 0 <==> y & 0x40 != 0)
    ensures x & 0xe0 == y & 0xe0 <==> x & 0xc0 == y & 0xc0 && (x & 0x20 != 0 <==> y & 0x20 != 0)
    ensures x & 0xf0 == y & 0xf0 <==> x & 0xe0 == y & 0xe0 && (x & 0x10 != 0 <==> y & 0x10 != 0)
    ensures x & 0xf8 == y & 0xf8 <==> x & 0xf0 == y & 0xf0 && (x & 0x08 != 0 <==> y & 0x08 != 0)
    ensures x & 0xfc == y & 0xfc <==> x & 0xf8 == y & 0xf8 && (x & 0x04 != 0 <==> y & 0x04 != 0)
    ensures x & 0xfe == y & 0xfe <==> x & 0xfc == y & 0xfc && (x & 0x02 != 0 <==> y & 0x02 != 0)
    ensures x & 0xff == y & 0xff <==> x & 0xfe == y & 0xfe && (x & 0x01 != 0 <==> y & 0x01 != 0)
  {
  }

  predicate EqualBit(x: bv8, y: bv8, j: nat) {
    j < 8 && (ByteBit(x, j) <==> ByteBit(y, j))
  }

  /** The bytes are equal under m leading ones. */
  predicate EqualBytes(x: bv8, y: bv8, m: nat)
    requires m <= 8
  {
    match m
    case 0 => true
    case 1 => x & 0x80 == y & 0x80
    case 2 => x & 0xc0 == y & 0xc0
    case 3 => x & 0xe0 == y & 0xe0
    case 4 => x & 0xf0 == y & 0xf0
    case 5 => x & 0xf8 == y & 0xf8
    case 6 => x & 0xfc == y & 0xfc
    case 7 => x & 0xfe == y & 0xfe
    case _ => x & 0xff == y & 0xff
  }

  lemma EqualUnderOnes(x: bv8, y: bv8, m: nat)
    requires m <= 8
    ensures x & LeadingOnes(m) == y & LeadingOnes(m) <==> EqualBytes(x, y, m)
  {
    match m
    case 0 => EqualUnder(x, y);
    case 1 => case 2 => case 3 => case 4 => case 5 => case 6 => case 7 => case 8 =>
  }

  lemma ByteStep(x: bv8, y: bv8, m: nat)
    requires 1 <= m <= 8
    ensures EqualBytes(x, y, m) <==> EqualBytes(x, y, m - 1) && EqualBit(x, y, m - 1)
  {
    EqualUnder(x, y);
  }

  /** Comparing two bytes under a mask of m leading ones compares their first m bits. */
  lemma {:induction false} ByteExact(x: bv8, y: bv8, m: nat)
    requires m <= 8
    ensures EqualBytes(x, y, m) <==> forall j: nat :: j < m ==> EqualBit(x, y, j)
  {
    if m > 0 {
      ByteExact(x, y, m - 1);
      ByteStep(x, y, m);
    }
  }

  lemma MaskByteIsOnes(prefix: nat, k: nat)
    ensures MaskByte(prefix, k) == LeadingOnes(BitsIn(prefix, k))
  {
  }

  lemma ByteOfAddress(net: seq<bv8>, ip: seq<bv8>, prefix: nat, k: nat)
    requires |net| == |ip| && prefix <= 8 * |net| && k < |net|
    requires SamePrefix(net, ip, prefix)
    ensures forall j: nat :: j < BitsIn(prefix, k) ==> EqualBit(net[k], ip[k], j)
  {
    forall j: nat | j < BitsIn(prefix, k)
      ensures EqualBit(net[k], ip[k], j)
    {
      assert (8 * k + j) / 8 == k && (8 * k + j) % 8 == j;
      assert AddressBit(net, 8 * k + j) <==> AddressBit(ip, 8 * k + j);
    }
  }

  lemma ByteUnderMask(x: bv8, y: bv8, mask: bv8, prefix: nat, k: nat)
    requires mask == MaskByte(prefix, k)
    ensures x & mask == y & mask <==> forall j: nat :: j < BitsIn(prefix, k) ==> EqualBit(x, y, j)
  {
    MaskByteIsOnes(prefix, k);
    EqualUnderOnes(x, y, BitsIn(prefix, k));
    ByteExact(x, y, BitsIn(prefix, k));
  }

  lemma MaskedGivesBit(net: seq<bv8>, mask: seq<bv8>, ip: seq<bv8>, prefix: nat, j: nat)
    requires |net| == |mask| == |ip| && j < prefix <= 8 * |net| && IsMask(mask, prefix) && MaskedEqual(net, mask, ip)
    ensures AddressBit(net, j) <==> AddressBit(ip, j)
  {
    var k := j / 8;
    ByteUnderMask(net[k], ip[k], mask[k], prefix, k);
    assert j % 8 < BitsIn(prefix, k) && EqualBit(net[k], ip[k], j % 8);
  }

  lemma BitsGiveMasked(net: seq<bv8>, mask: seq<bv8>, ip: seq<bv8>, prefix: nat, k: nat)
    requires |net| == |mask| == |ip| && k < |net| && prefix <= 8 * |net|
    requires IsMask(mask, prefix) && SamePrefix(net, ip, prefix)
    ensures net[k] & mask[k] == ip[k] & mask[k]
  {
    ByteOfAddress(net, ip, prefix, k);
    ByteUnderMask(net[k], ip[k], mask[k], prefix, k);
  }

  /** Comparing two addresses byte by byte under the mask of a prefix compares their first bits. */
  lemma PrefixExact(net: seq<bv8>, mask: seq<bv8>, ip: seq<bv8>, prefix: nat)
    requires |net| == |mask| == |ip| && prefix <= 8 * |net| && IsMask(mask, prefix)
    ensures MaskedEqual(net, mask, ip) <==> SamePrefix(net, ip, prefix)
  {
    if MaskedEqual(net, mask, ip) {
      forall j | 0 <= j < prefix
        ensures AddressBit(net, j) <==> AddressBit(ip, j)
      {
        MaskedGivesBit(net, mask, ip, prefix, j);
      }
    }
    if SamePrefix(net, ip, prefix) {
      forall k | 0 <= k < |net|
        ensures net[k] & mask[k] == ip[k] & mask[k]
      {
        BitsGiveMasked(net, mask, ip, prefix, k);
      }
    }
  }

  /** A longer prefix of the same network matches fewer addresses. */
  lemma LongerPrefix(net: seq<bv8>, ip: seq<bv8>, short: nat, long: nat)
    requires |net| == |ip| && short <= long <= 8 * |net| && SamePrefix(net, ip, long)
    ensures SamePrefix(net, ip, short)
  {
  }

  // ---- IPv6: sixteen bytes ----

  /** _exclude_prefix_to_ipv6_mask */
  method PrefixToIpv6Mask(prefix: nat, mask: array<bv8>)
    requires prefix <= 128 && mask.Length == 16
    modifies mask
    ensures IsMask(mask[..], prefix)
  {
    for i := 0 to 16
      invariant forall k :: 0 <= k < i ==> mask[k] == 0
    {
      mask[i] := 0;
    }
    var n := prefix / 8;
    for i := 0 to n
      invariant forall k :: 0 <= k < 16 ==> mask[k] == if k < i then 0xff else 0
    {
      mask[i] := 0xff;
    }
    var m := prefix % 8;
    if m == 0 {
      return;
    }
    ShiftedOnes(m);
    mask[n] := 0xff;
    mask[n] := mask[n] << (8 - m);
  }

  /** _exclude_ipv6_in_net */
  method Ipv6InNet(net: seq<bv8>, mask: seq<bv8>, ip: seq<bv8>) returns (inside: bool)
    requires |net| == |mask| == |ip| == 16
    ensures inside <==> MaskedEqual(net, mask, ip)
  {
    for i := 0 to 16
      invariant forall k :: 0 <= k < i ==> net[k] & mask[k] == ip[k] & mask[k]
    {
      if net[i] & mask[i] != ip[i] & mask[i] {
        return false;
      }
    }
    inside := true;
  }

  // ---- IPv4: words in network byte order, as the four bytes they are in memory ----

  /** The bitwise and of two words, which acts on each byte in memory alike. */
  function And(x: seq<bv8>, y: seq<bv8>): seq<bv8>
    requires |x| == |y|
  {
    seq(|x|, k requires 0 <= k < |x| => x[k] & y[k])
  }

  /** The memory image of htonl(x): the most significant byte first on every host (see Wire.NetworkOrder). */
  function NetworkBytes(x: bv32): seq<bv8> {
    [(x >> 24) as bv8, ((x >> 16) & 0xff) as bv8, ((x >> 8) & 0xff) as bv8, (x & 0xff) as bv8]
  }

  /** The host-order netmask; C leaves the shift by 32 that prefix 0 asks for undefined: `undef` is its result. */
  function HostMask(prefix: nat, undef: bv32): bv32
    requires prefix <= 32
  {
    if prefix == 0 then undef else 0xffff_ffff << (32 - prefix)
  }

  /** _exclude_ipv4_in_net */
  predicate Ipv4InNet(net: seq<bv8>, mask: seq<bv8>, ip: seq<bv8>)
    requires |net| == |mask| == |ip| == 4
  {
    And(net, mask) == And(ip, mask)
  }

  lemma AndEqual(net: seq<bv8>, mask: seq<bv8>, ip: seq<bv8>)
    requires |net| == |mask| == |ip|
    ensures And(net, mask) == And(ip, mask) <==> MaskedEqual(net, mask, ip)
  {
    if And(net, mask) == And(ip, mask) {
      forall k | 0 <= k < |net|
        ensures net[k] & mask[k] == ip[k] & mask[k]
      {
        assert And(net, mask)[k] == And(ip, mask)[k];
      }
    }
  }

  /** Shifting all ones left by 32 - prefix leaves `prefix` leading ones. */
  lemma HostMask1(prefix: nat, undef: bv32)
    requires 1 <= prefix <= 8
    ensures NetworkBytes(HostMask(prefix, undef)) == [LeadingOnes(prefix), 0, 0, 0]
  {
    match prefix
    case 1 => case 2 => case 3 => case 4 => case 5 => case 6 => case 7 => case 8 =>
  }

  lemma HostMask2(prefix: nat, undef: bv32)
    requires 9 <= prefix <= 16
    ensures NetworkBytes(HostMask(prefix, undef)) == [0xff, LeadingOnes(prefix - 8), 0, 0]
  {
    match prefix
    case 9 => case 10 => case 11 => case 12 => case 13 => case 14 => case 15 => case 16 =>
  }

  lemma HostMask3(prefix: nat, undef: bv32)
    requires 17 <= prefix <= 24
    ensures NetworkBytes(HostMask(prefix, undef)) == [0xff, 0xff, LeadingOnes(prefix - 16), 0]
  {
    match prefix
    case 17 => case 18 => case 19 => case 20 => case 21 => case 22 => case 23 => case 24 =>
  }

  lemma HostMask4(prefix: nat, undef: bv32)
    requires 25 <= prefix <= 32
    ensures NetworkBytes(HostMask(prefix, undef)) == [0xff, 0xff, 0xff, LeadingOnes(prefix - 24)]
  {
    match prefix
    case 25 => case 26 => case 27 => case 28 => case 29 => case 30 => case 31 => case 32 =>
  }

  lemma FourBytes(b: seq<bv8>, prefix: nat)
    requires 1 <= prefix <= 32
    requires b == (if prefix <= 8 then [LeadingOnes(prefix), 0, 0, 0]
                   else if prefix <= 16 then [0xff, LeadingOnes(prefix - 8), 0, 0]
                   else if prefix <= 24 then [0xff, 0xff, LeadingOnes(prefix - 16), 0]
                   else [0xff, 0xff, 0xff, LeadingOnes(prefix - 24)])
    ensures |b| == 4 && IsMask(b, prefix)
  {
  }

  lemma HostMaskBytes(prefix: nat, undef: bv32)
    requires 1 <= prefix <= 32
    ensures |NetworkBytes(HostMask(prefix, undef))| == 4 && IsMask(NetworkBytes(HostMask(prefix, undef)), prefix)
  {
    if prefix <= 8 {
      HostMask1(prefix, undef);
    } else if prefix <= 16 {
      HostMask2(prefix, undef);
    } else if prefix <= 24 {
      HostMask3(prefix, undef);
    } else {
      HostMask4(prefix, undef);
    }
    FourBytes(NetworkBytes(HostMask(prefix, undef)), prefix);
  }

  /** For prefixes 1 to 32 the comparison of words matches exactly the addresses with the same first bits. */
  lemma Ipv4Exact(net: seq<bv8>, ip: seq<bv8>, prefix: nat, undef: bv32)
    requires |net| == |ip| == 4 && 1 <= prefix <= 32
    ensures Ipv4InNet(net, NetworkBytes(HostMask(prefix, undef)), ip) <==> SamePrefix(net, ip, prefix)
  {
    var mask := NetworkBytes(HostMask(prefix, undef));
    HostMaskBytes(prefix, undef);
    AndEqual(net, mask, ip);
    PrefixExact(net, mask, ip, prefix);
  }

  lemma ZeroBytes(x: bv32)
    ensures NetworkBytes(x) == [0, 0, 0, 0] <==> x == 0
  {
  }

  lemma Complement(x: bv8, m: bv8)
    ensures x & m == !x & m <==> m == 0
    ensures x & 0 == 0
  {
  }

  predicate AllZero(mask: seq<bv8>) {
    forall k :: 0 <= k < |mask| ==> mask[k] == 0
  }

  lemma ZeroMatches(net: seq<bv8>, mask: seq<bv8>, ip: seq<bv8>)
    requires |net| == |mask| == |ip| && AllZero(mask)
    ensures And(net, mask) == And(ip, mask)
  {
    forall k | 0 <= k < |net|
      ensures And(net, mask)[k] == And(ip, mask)[k]
    {
      Complement(net[k], 0);
      Complement(ip[k], 0);
    }
  }

  /** The address that differs from `net` in every bit. */
  function Opposite(net: seq<bv8>): seq<bv8> {
    seq(|net|, k requires 0 <= k < |net| => !net[k])
  }

  lemma OppositeEscapes(net: seq<bv8>, mask: seq<bv8>)
    requires |net| == |mask| && !AllZero(mask)
    ensures And(net, mask) != And(Opposite(net), mask)
  {
    var k :| 0 <= k < |mask| && mask[k] != 0;
    Complement(net[k], mask[k]);
    assert And(net, mask)[k] != And(Opposite(net), mask)[k];
  }

  ghost predicate MatchesAll(net: seq<bv8>, mask: seq<bv8>)
    requires |net| == |mask|
  {
    forall ip: seq<bv8> :: |ip| == |net| ==> And(net, mask) == And(ip, mask)
  }

  /** For prefix 0 it matches every address, as it should, exactly if the undefined shift happens to give 0. */
  lemma Ipv4ZeroPrefix(net: seq<bv8>, undef: bv32)
    requires |net| == 4
    ensures MatchesAll(net, NetworkBytes(HostMask(0, undef))) <==> undef == 0
  {
    var mask := NetworkBytes(undef);
    ZeroBytes(undef);
    if AllZero(mask) {
      assert mask == [0, 0, 0, 0];
      forall ip: seq<bv8> | |ip| == 4
        ensures And(net, mask) == And(ip, mask)
      {
        ZeroMatches(net, mask, ip);
      }
    } else {
      OppositeEscapes(net, mask);
      assert |Opposite(net)| == |net|;
    }
  }
}
