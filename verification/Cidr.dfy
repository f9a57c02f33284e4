/**
 IPv4 and IPv6 networks in CIDR notation (section 3.1 of RFC 4632, section 2.3 of
 RFC 4291): an address and a prefix length, where the host bits of the address may
 be set.  The operations are those of the network type the allocator works with.
 */
module Cidr {
  import opened Arithmetic

  datatype Family = V4 | V6

  function Bits(f: Family): nat {
    if f.V4? then 32 else 128
  }

  datatype RawAddr = RawAddr(family: Family, value: nat)
  type IpAddr = a: RawAddr | a.value < Pow2(Bits(a.family)) witness RawAddr(V4, 0)

  datatype RawNet = RawNet(family: Family, host: nat, prefix: nat)
  type IpNet = n: RawNet | n.prefix <= Bits(n.family) && n.host < Pow2(Bits(n.family)) witness RawNet(V4, 0, 0)

  /** Number of addresses in the block. */
  function Size(n: IpNet): (s: nat)
    ensures s >= 1
  {
    Pow2(Bits(n.family) - n.prefix)
  }

  /** Position of the block among all blocks of its size. */
  function Slot(n: IpNet): nat {
    n.host / Size(n)
  }

  lemma SlotInRange(n: IpNet)
    ensures Slot(n) < Pow2(n.prefix)
    ensures Slot(n) * Size(n) + Size(n) <= Pow2(Bits(n.family))
  {
    var s, q := Size(n), Slot(n);
    QuotientIs(n.host, s, q);
    Pow2Splits(n.prefix, Bits(n.family) - n.prefix);
    if q >= Pow2(n.prefix) {
      if Pow2(n.prefix) < q { ProductFalls(Pow2(n.prefix), q, s); }
      assert false;
    }
    if q + 1 < Pow2(n.prefix) { ProductFalls(q + 1, Pow2(n.prefix), s); }
    Distribute(q, 1, s);
  }

  /** The address as written, host bits and all. */
  function Addr(n: IpNet): IpAddr {
    RawAddr(n.family, n.host)
  }

  function Network(n: IpNet): IpAddr {
    SlotInRange(n);
    RawAddr(n.family, Slot(n) * Size(n))
  }

  function Broadcast(n: IpNet): IpAddr {
    SlotInRange(n);
    RawAddr(n.family, Slot(n) * Size(n) + Size(n) - 1)
  }

  predicate Contains(n: IpNet, a: IpAddr) {
    n.family == a.family && Network(n).value <= a.value <= Broadcast(n).value
  }

  lemma ContainsBySlot(n: IpNet, a: IpAddr)
    ensures Contains(n, a) <==> n.family == a.family && a.value / Size(n) == Slot(n)
  {
    QuotientIs(a.value, Size(n), Slot(n));
  }

  /** An address is in a network exactly when it agrees with the network's on the first `prefix` of 32 or 128 bits. */
  lemma ContainsByPrefix(n: IpNet, a: IpAddr)
    ensures var host := Pow2((if n.family == V4 then 32 else 128) - n.prefix);
            Contains(n, a) <==> n.family == a.family && a.value / host == n.host / host
  {
    ContainsBySlot(n, a);
  }

  lemma ContainsOwn(n: IpNet)
    ensures Contains(n, Addr(n)) && Contains(n, Network(n)) && Contains(n, Broadcast(n))
  {
    ContainsBySlot(n, Addr(n));
  }

  // ---- Overlap ----

  predicate NetsOverlap(a: IpNet, b: IpNet) {
    Contains(a, Network(b)) || Contains(b, Network(a))
  }

  /** No address lies in both. */
  ghost predicate Disjoint(a: IpNet, b: IpNet) {
    forall x: IpAddr :: !(Contains(a, x) && Contains(b, x))
  }

  ghost predicate Inside(a: IpNet, b: IpNet) {
    forall x: IpAddr :: Contains(a, x) ==> Contains(b, x)
  }

  /** An address common to both puts the block with the longer prefix inside the other. */
  lemma SharedMeansNested(a: IpNet, b: IpNet, x: IpAddr)
    requires Contains(a, x) && Contains(b, x)
    requires a.prefix >= b.prefix
    ensures Inside(a, b)
  {
    var m := Pow2(a.prefix - b.prefix);
    Pow2Splits(Bits(a.family) - a.prefix, a.prefix - b.prefix);
    assert Size(b) == Size(a) * m;
    ContainsBySlot(a, x);
    ContainsBySlot(b, x);
    QuotientOfQuotient(x.value, Size(a), m);
    forall y: IpAddr | Contains(a, y) ensures Contains(b, y) {
      ContainsBySlot(a, y);
      ContainsBySlot(b, y);
      QuotientOfQuotient(y.value, Size(a), m);
    }
  }

  /**
   Blocks are nested or disjoint, and the two-sided network-address test tells
   which, even when host bits are set or the families differ.
   */
  lemma OverlapLaw(a: IpNet, b: IpNet)
    ensures NetsOverlap(a, b) <==> !Disjoint(a, b)
    ensures NetsOverlap(a, b) ==> Inside(a, b) || Inside(b, a)
    ensures NetsOverlap(a, b) ==> a.family == b.family
  {
    ContainsOwn(a);
    ContainsOwn(b);
    if x: IpAddr :| Contains(a, x) && Contains(b, x) {
      if a.prefix >= b.prefix {
        SharedMeansNested(a, b, x);
      } else {
        SharedMeansNested(b, a, x);
      }
    }
  }

  // ---- Addresses a subnet can hand out ----

  /**
   First and last address the host iterator of the network library yields: an IPv4
   block of up to 30 bits leaves out its two ends, every other block does not.
   */
  function HostRange(n: IpNet): (int, int) {
    if n.family.V4? && n.prefix < 31
    then (Network(n).value + 1, Broadcast(n).value - 1)
    else (Network(n).value, Broadcast(n).value)
  }

  /** Strictly between the network and the broadcast address. */
  predicate IsCandidate(n: IpNet, a: IpAddr) {
    a.family == n.family && Network(n).value < a.value < Broadcast(n).value
  }

  /** With the two ends skipped, the iterator yields the candidates, whatever the prefix length. */
  lemma HostRangeCovers(n: IpNet, a: IpAddr)
    ensures IsCandidate(n, a)
       <==> a.family == n.family && HostRange(n).0 <= a.value <= HostRange(n).1
            && a != Network(n) && a != Broadcast(n)
  {
  }

  function CandidateCount(n: IpNet): nat {
    if Size(n) < 2 then 0 else Size(n) - 2
  }

  ghost function Candidates(n: IpNet): set<IpAddr> {
    set v | Network(n).value < v < Broadcast(n).value :: var a: IpAddr := RawAddr(n.family, v); a
  }

  lemma CandidatesAre(n: IpNet, a: IpAddr)
    ensures a in Candidates(n) <==> IsCandidate(n, a)
  {
    if IsCandidate(n, a) {
      assert a == RawAddr(n.family, a.value);
    }
  }

  ghost function Run(f: Family, lo: nat, hi: nat): set<IpAddr>
    requires hi <= Pow2(Bits(f))
  {
    set v | lo <= v < hi :: var a: IpAddr := RawAddr(f, v); a
  }

  lemma {:induction false} RunCount(f: Family, lo: nat, hi: nat)
    requires lo <= hi <= Pow2(Bits(f))
    ensures |Run(f, lo, hi)| == hi - lo
  {
    if lo < hi {
      RunCount(f, lo, hi - 1);
      var last: IpAddr := RawAddr(f, hi - 1);
      assert Run(f, lo, hi) == Run(f, lo, hi - 1) + {last};
    } else {
      assert Run(f, lo, hi) == {};
    }
  }

  lemma CandidatesCounted(n: IpNet)
    ensures |Candidates(n)| == CandidateCount(n)
  {
    var lo, hi := Network(n).value, Broadcast(n).value;
    if Size(n) < 2 {
      assert Candidates(n) == {};
    } else {
      RunCount(n.family, lo + 1, hi);
      assert Candidates(n) == Run(n.family, lo + 1, hi);
    }
  }
}
