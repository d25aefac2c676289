/** The list of networks whose addresses are ignored. */
module Exclude {
  import opened Base
  import opened Cidr

  const CHUNK := 100

  function Max(a: nat, b: nat): nat {
    if a > b then a else b
  }

  datatype Family = Inet | Inet6

  function Width(f: Family): nat {
    if f.Inet? then 4 else 16
  }

  /** A line of the exclude file after parsing: an address with a prefix length. */
  datatype Parsed = Parsed(family: Family, address: seq<bv8>, prefix: nat)

  /** The parser rejects prefixes that are too long for the family. */
  predicate Acceptable(p: Parsed) {
    |p.address| == Width(p.family) && p.prefix <= 8 * Width(p.family)
  }

  datatype Entry = Entry(family: Family, net: seq<bv8>, mask: seq<bv8>)

  /** The one case in which the mask is made by a shift that C leaves undefined. */
  predicate Undefined(p: Parsed) {
    p.family.Inet? && p.prefix == 0
  }

  /** The entry's mask has the prefix's leading ones, or in the undefined case what the shift happened to give. */
  predicate IsEntry(e: Entry, p: Parsed, undef: bv32)
    requires Acceptable(p)
  {
    && e.family == p.family && e.net == p.address && |e.mask| == Width(p.family)
    && (if Undefined(p) then e.mask == NetworkBytes(undef) else IsMask(e.mask, p.prefix))
  }

  /** The address lies in the network by its first bits. */
  predicate Covers(p: Parsed, family: Family, ip: seq<bv8>)
    requires Acceptable(p) && |ip| == Width(family)
  {
    p.family == family && SamePrefix(p.address, ip, p.prefix)
  }

  /** What the compiled list answers for one network: as it should, except where the shift is undefined. */
  predicate Answers(p: Parsed, undef: bv32, family: Family, ip: seq<bv8>)
    requires Acceptable(p) && |ip| == Width(family)
  {
    p.family == family &&
    if Undefined(p) then MaskedEqual(p.address, NetworkBytes(undef), ip) else SamePrefix(p.address, ip, p.prefix)
  }

  /** Which is the right answer if the shift gives 0. */
  lemma AnswersCover(p: Parsed, undef: bv32, family: Family, ip: seq<bv8>)
    requires Acceptable(p) && |ip| == Width(family) && (Undefined(p) ==> undef == 0)
    ensures Answers(p, undef, family, ip) <==> Covers(p, family, ip)
  {
    if Undefined(p) && family.Inet? {
      ZeroBytes(undef);
      AndEqual(p.address, NetworkBytes(undef), ip);
      ZeroMatches(p.address, NetworkBytes(undef), ip);
    }
  }

  predicate EntryMatches(e: Entry, ip: seq<bv8>)
    requires |e.net| == |e.mask| == |ip|
  {
    MaskedEqual(e.net, e.mask, ip)
  }

  /** An entry matches exactly the addresses of its network, or those the undefined mask makes equal. */
  lemma EntryExact(e: Entry, p: Parsed, undef: bv32, ip: seq<bv8>)
    requires Acceptable(p) && IsEntry(e, p, undef) && |ip| == Width(p.family)
    ensures EntryMatches(e, ip) <==> Answers(p, undef, p.family, ip)
  {
    if !Undefined(p) {
      PrefixExact(e.net, e.mask, ip, p.prefix);
    }
  }

  method MakeEntry(p: Parsed, undef: bv32) returns (e: Entry)
    requires Acceptable(p)
    ensures IsEntry(e, p, undef)
  {
    if p.family.Inet? {
      e := Entry(p.family, p.address, NetworkBytes(HostMask(p.prefix, undef)));
      if p.prefix > 0 {
        HostMaskBytes(p.prefix, undef);
      }
    } else {
      var m := new bv8[16](i => 0);
      PrefixToIpv6Mask(p.prefix, m);
      e := Entry(p.family, p.address, m[..]);
    }
  }

  class ExcludeList {
    var slots: seq<Option<Entry>>
    var size: nat
    var fill: nat
    const undef: bv32                  // what the compiled shift by 32 gives
    ghost var accepted: seq<Parsed>    // since the last clear

    ghost predicate Valid()
      reads this
    {
      && size == |slots| && size > 0 && size % CHUNK == 0
      && fill == |accepted| <= size
      && (forall i :: 0 <= i < fill ==>
        Acceptable(accepted[i]) && slots[i].Some? && IsEntry(slots[i].value, accepted[i], undef))
      && (forall i :: fill <= i < size ==> slots[i].None?)
    }

    constructor (undef: bv32)
      ensures Valid() && accepted == [] && this.undef == undef
    {
      this.undef := undef;
      size, fill, accepted := CHUNK, 0, [];
      slots := seq(CHUNK, i => None);
    }

    method Clear()
      requires Valid()
      modifies this
      ensures Valid() && accepted == [] && size == CHUNK
    {
      size, fill, accepted := CHUNK, 0, [];
      slots := seq(CHUNK, i => None);
    }

    method FindFree() returns (pos: nat, nospace: bool)
      requires Valid()
      ensures nospace <==> fill == size
      ensures pos == if nospace then 0 else fill
    {
      for i := 0 to size
        invariant i <= fill
      {
        if slots[i].None? {
          return i, false;
        }
      }
      return 0, true;
    }

    method Grow() returns (pos: nat)
      requires Valid() && fill == size
      modifies this`slots, this`size
      ensures Valid() && pos == old(size) && size == pos + CHUNK
    {
      pos := size;
      size := size + CHUNK;
      slots := slots + seq(CHUNK, i => None);
    }

    /** Adds a network; `line` is None when the text does not parse. */
    method Add(line: Option<Parsed>) returns (ok: bool)
      requires Valid()
      requires line.Some? ==> |line.value.address| == Width(line.value.family)
      modifies this
      ensures Valid()
      ensures ok <==> line.Some? && line.value.prefix <= 8 * Width(line.value.family)
      ensures accepted == if ok then old(accepted) + [line.value] else old(accepted)
    {
      if line.None? || !Acceptable(line.value) {
        return false;
      }
      var p := line.value;
      var pos, nospace := FindFree();
      if pos == 0 && nospace {
        pos := Grow();
      }
      var e := MakeEntry(p, undef);
      slots := slots[pos := Some(e)];
      fill := Max(pos + 1, fill);
      accepted := accepted + [p];
      ok := true;
    }

    /** The first entry of the same family that matches. */
    method Find(family: Family, ip: seq<bv8>) returns (found: Option<nat>)
      requires Valid() && |ip| == Width(family)
      ensures found.Some? ==>
        && found.value < |accepted| && accepted[found.value].family == family
        && EntryMatches(slots[found.value].value, ip)
      ensures forall i :: 0 <= i < (if found.Some? then found.value else |accepted|) && accepted[i].family == family ==>
        !EntryMatches(slots[i].value, ip)
    {
      for i := 0 to fill
        invariant forall j :: 0 <= j < i && accepted[j].family == family ==> !EntryMatches(slots[j].value, ip)
      {
        if slots[i].Some? && slots[i].value.family == family {
          var e := slots[i].value;
          var inside;
          if family.Inet? {
            inside := Ipv4InNet(e.net, e.mask, ip);
            AndEqual(e.net, e.mask, ip);
          } else {
            inside := Ipv6InNet(e.net, e.mask, ip);
          }
          if inside {
            return Some(i);
          }
        }
      }
      found := None;
    }

    /** Answers by the networks accepted since the last clear, whatever their order and multiplicity. */
    method IsExcluded(query: Option<(Family, seq<bv8>)>) returns (excluded: bool)
      requires Valid()
      requires query.Some? ==> |query.value.1| == Width(query.value.0)
      ensures query.None? ==> !excluded
      ensures query.Some? ==>
        (excluded <==> exists p :: p in accepted && Answers(p, undef, query.value.0, query.value.1))
      ensures query.Some? && (forall p :: p in accepted && Undefined(p) ==> undef == 0) ==>
        (excluded <==> exists p :: p in accepted && Covers(p, query.value.0, query.value.1))
    {
      if query.None? {
        return false;
      }
      var (family, ip) := query.value;
      var found := Find(family, ip);
      excluded := found.Some?;
      forall i | 0 <= i < |accepted| && accepted[i].family == family
        ensures EntryMatches(slots[i].value, ip) <==> Answers(accepted[i], undef, family, ip)
      {
        EntryExact(slots[i].value, accepted[i], undef, ip);
      }
      if excluded {
        assert accepted[found.value] in accepted && Answers(accepted[found.value], undef, family, ip);
      }
      if forall p :: p in accepted && Undefined(p) ==> undef == 0 {
        forall p | p in accepted
          ensures Answers(p, undef, family, ip) <==> Covers(p, family, ip)
        {
          AnswersCover(p, undef, family, ip);
        }
      }
    }
  }
}
