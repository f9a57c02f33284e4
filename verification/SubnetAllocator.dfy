/** First-fit carving of a routed subnet of a requested prefix length. */
module SubnetAllocator {
  import opened Arithmetic
  import opened AddressTexts
  import opened Wrappers
  import opened Cidr
  import opened HostAllocator

  // ---- Blocks ----

  /** The requested length is no shorter than the subnet's and valid for its family. */
  predicate Fits(n: IpNet, prefix: nat) {
    n.prefix <= prefix <= Bits(n.family)
  }

  function BlockSize(n: IpNet, prefix: nat): (s: nat)
    requires Fits(n, prefix)
    ensures s >= 1
  {
    Pow2(Bits(n.family) - prefix)
  }

  function BlockCount(n: IpNet, prefix: nat): (c: nat)
    requires Fits(n, prefix)
    ensures c >= 1
  {
    Pow2(prefix - n.prefix)
  }

  lemma BlocksFillSubnet(n: IpNet, prefix: nat)
    requires Fits(n, prefix)
    ensures Size(n) == BlockCount(n, prefix) * BlockSize(n, prefix)
  {
    Pow2Splits(prefix - n.prefix, Bits(n.family) - prefix);
  }

  lemma BlockEnd(n: IpNet, prefix: nat, j: nat)
    requires Fits(n, prefix) && j < BlockCount(n, prefix)
    ensures Network(n).value + j * BlockSize(n, prefix) + BlockSize(n, prefix) <= Network(n).value + Size(n)
    ensures Network(n).value + Size(n) <= Pow2(Bits(n.family))
  {
    BlocksFillSubnet(n, prefix);
    var s, c := BlockSize(n, prefix), BlockCount(n, prefix);
    ProductFalls(j, c, s);
    SlotInRange(n);
  }

  /** The j-th block of the requested length, counted from the subnet's network address. */
  function Block(n: IpNet, prefix: nat, j: nat): IpNet
    requires Fits(n, prefix) && j < BlockCount(n, prefix)
  {
    BlockEnd(n, prefix, j);
    RawNet(n.family, Network(n).value + j * BlockSize(n, prefix), prefix)
  }

  lemma BlockSlot(n: IpNet, prefix: nat, j: nat)
    requires Fits(n, prefix) && j < BlockCount(n, prefix)
    ensures Slot(Block(n, prefix, j)) == Slot(n) * BlockCount(n, prefix) + j
    ensures Network(Block(n, prefix, j)) == Addr(Block(n, prefix, j))
  {
    BlocksFillSubnet(n, prefix);
    var s, c, q := BlockSize(n, prefix), BlockCount(n, prefix), Slot(n);
    Regroup(q, c, s);
    assert s * c == c * s;
    Distribute(q * c, j, s);
    assert Network(n).value == q * (c * s);
    QuotientIs(Block(n, prefix, j).host, s, q * c + j);
  }

  /** A block starts where its size says, has the requested length and stays inside its subnet. */
  lemma BlockInside(n: IpNet, prefix: nat, j: nat)
    requires Fits(n, prefix) && j < BlockCount(n, prefix)
    ensures var b := Block(n, prefix, j);
            b.prefix == prefix && Network(b) == Addr(b) && Inside(b, n)
  {
    BlockSlot(n, prefix, j);
    BlockEnd(n, prefix, j);
    var b := Block(n, prefix, j);
    forall x: IpAddr | Contains(b, x) ensures Contains(n, x) {
      assert Network(n).value <= Network(b).value;
      assert Broadcast(b).value <= Broadcast(n).value;
    }
  }

  lemma BlocksApart(n: IpNet, prefix: nat, i: nat, j: nat, x: IpAddr)
    requires Fits(n, prefix) && i < j < BlockCount(n, prefix)
    ensures !(Contains(Block(n, prefix, i), x) && Contains(Block(n, prefix, j), x))
  {
    BlockSlot(n, prefix, i);
    BlockSlot(n, prefix, j);
    ContainsBySlot(Block(n, prefix, i), x);
    ContainsBySlot(Block(n, prefix, j), x);
  }

  lemma AlignedSlot(n: IpNet, b: IpNet) returns (j: nat)
    requires Fits(n, b.prefix) && b.family == n.family
    requires Network(b) == Addr(b) && Contains(n, Addr(b))
    ensures j < BlockCount(n, b.prefix) && Slot(b) == Slot(n) * BlockCount(n, b.prefix) + j
  {
    var s, c := BlockSize(n, b.prefix), BlockCount(n, b.prefix);
    BlocksFillSubnet(n, b.prefix);
    ContainsBySlot(n, Addr(b));
    QuotientOfQuotient(b.host, s, c);
    QuotientIs(Slot(b), c, Slot(n));
    j := Slot(b) - Slot(n) * c;
  }

  /** Every aligned network of the requested length inside the subnet is one of its blocks. */
  lemma EveryAlignedNetIsABlock(n: IpNet, b: IpNet)
    requires b.prefix >= n.prefix && Network(b) == Addr(b) && Inside(b, n)
    ensures Fits(n, b.prefix)
    ensures exists j :: 0 <= j < BlockCount(n, b.prefix) && b == Block(n, b.prefix, j)
  {
    ContainsOwn(b);
    assert Contains(n, Addr(b));
    var j := AlignedSlot(n, b);
    BlockSlot(n, b.prefix, j);
    var same := Block(n, b.prefix, j);
    assert Network(same) == Addr(same) && Slot(same) == Slot(b) && Size(same) == Size(b);
    assert b == same;
  }

  // ---- What the answer means ----

  /** The block avoids the subnet's server address and shares no address with anything taken. */
  ghost predicate Free(n: IpNet, b: IpNet, taken: set<IpNet>) {
    && !Contains(b, Addr(n))
    && forall t :: t in taken ==> Disjoint(b, t)
  }

  ghost predicate FreeAt(subnets: seq<IpNet>, taken: set<IpNet>, prefix: nat, i: nat, j: nat) {
    && i < |subnets|
    && Fits(subnets[i], prefix)
    && j < BlockCount(subnets[i], prefix)
    && Free(subnets[i], Block(subnets[i], prefix, j), taken)
  }

  /** The first free block in subnet order, then address order; an error only when there is none. */
  ghost predicate CarveAnswer(subnets: seq<IpNet>, taken: set<IpNet>, prefix: nat, r: Option<IpNet>) {
    match r
    case Some(b) =>
      exists i: nat, j: nat ::
        && FreeAt(subnets, taken, prefix, i, j)
        && b == Block(subnets[i], prefix, j)
        && forall i': nat, j': nat :: FreeAt(subnets, taken, prefix, i', j') ==> i < i' || (i == i' && j <= j')
    case None =>
      forall i: nat, j: nat :: !FreeAt(subnets, taken, prefix, i, j)
  }

  function TokenNets(spec: AddressSpec): set<IpNet> {
    set j | 0 <= j < |spec| && spec[j].net.Some? :: spec[j].net.value
  }

  ghost predicate TakenNets(nets: set<IpNet>, taken: seq<AddressSpec>) {
    forall n: IpNet :: n in nets <==> exists i :: 0 <= i < |taken| && n in TokenNets(taken[i])
  }

  // ---- The search ----

  /** What the allocator answers to its caller. */
  ghost predicate CarveAllocation(subnets: seq<IpNet>, taken: seq<AddressSpec>, prefix: nat, r: Option<IpNet>) {
    exists nets :: TakenNets(nets, taken) && CarveAnswer(subnets, nets, prefix, r)
  }

  method ListedNets(p: Parser, taken: seq<string>) returns (nets: set<IpNet>)
    ensures TakenNets(nets, AllParsed(p, taken))
  {
    ghost var specs := AllParsed(p, taken);
    nets := {};
    for i := 0 to |taken|
      invariant forall n: IpNet :: n in nets <==> exists k :: 0 <= k < i && n in TokenNets(specs[k])
    {
      nets := nets + TokenNets(Parsed(p, taken[i]));
    }
  }

  lemma FreeByTest(n: IpNet, b: IpNet, taken: set<IpNet>)
    ensures Free(n, b, taken) <==> !Contains(b, Addr(n)) && forall t :: t in taken ==> !NetsOverlap(b, t)
  {
    forall t | t in taken ensures Disjoint(b, t) <==> !NetsOverlap(b, t) {
      OverlapLaw(b, t);
    }
  }

  /** The first free block of one fitting subnet. */
  method FirstFreeBlock(n: IpNet, taken: set<IpNet>, prefix: nat) returns (r: Option<nat>)
    requires Fits(n, prefix)
    ensures r.Some? ==> r.value < BlockCount(n, prefix) && Free(n, Block(n, prefix, r.value), taken)
    ensures forall j: nat :: j < (if r.Some? then r.value else BlockCount(n, prefix)) ==>
        !Free(n, Block(n, prefix, j), taken)
  {
    for j: nat := 0 to BlockCount(n, prefix)
      invariant forall k: nat :: k < j ==> !Free(n, Block(n, prefix, k), taken)
    {
      var sub := Block(n, prefix, j);
      FreeByTest(n, sub, taken);
      if Contains(sub, Addr(n)) || exists t :: t in taken && NetsOverlap(sub, t) {
        continue;
      }
      return Some(j);
    }
    return None;
  }

  method AllocateSubnet(p: Parser, subnets: seq<IpNet>, taken: seq<string>, prefix: nat) returns (r: Option<IpNet>)
    ensures CarveAllocation(subnets, AllParsed(p, taken), prefix, r)
  {
    var nets := ListedNets(p, taken);
    for i: nat := 0 to |subnets|
      invariant forall i': nat, j': nat :: i' < i ==> !FreeAt(subnets, nets, prefix, i', j')
    {
      var n := subnets[i];
      var max := if n.family.V4? then 32 else 128;
      if prefix < n.prefix || prefix > max {
        continue;
      }
      var found := FirstFreeBlock(n, nets, prefix);
      if found.Some? {
        assert FreeAt(subnets, nets, prefix, i, found.value);
        assert CarveAnswer(subnets, nets, prefix, Some(Block(n, prefix, found.value)));
        return Some(Block(n, prefix, found.value));
      }
    }
    assert CarveAnswer(subnets, nets, prefix, None);
    return None;
  }

  // ---- Consequences ----

  /** What a caller may rely on when a block comes back. */
  lemma CarvedBlock(subnets: seq<IpNet>, taken: set<IpNet>, prefix: nat, b: IpNet)
    requires CarveAnswer(subnets, taken, prefix, Some(b))
    ensures b.prefix == prefix && Network(b) == Addr(b)
    ensures exists i :: 0 <= i < |subnets| && Inside(b, subnets[i]) && !Contains(b, Addr(subnets[i]))
    ensures forall t :: t in taken ==> Disjoint(b, t)
  {
    var i: nat, j: nat :| FreeAt(subnets, taken, prefix, i, j) && b == Block(subnets[i], prefix, j);
    BlockInside(subnets[i], prefix, j);
  }

  /** An error means that no aligned network of that length, in any fitting subnet, would have done. */
  lemma CarveErrorIsFinal(subnets: seq<IpNet>, taken: set<IpNet>, prefix: nat, i: nat, b: IpNet)
    requires CarveAnswer(subnets, taken, prefix, None)
    requires i < |subnets| && subnets[i].prefix <= prefix
    requires b.prefix == prefix && Network(b) == Addr(b) && Inside(b, subnets[i])
    ensures !Free(subnets[i], b, taken)
  {
    EveryAlignedNetIsABlock(subnets[i], b);
    var j: nat :| j < BlockCount(subnets[i], prefix) && b == Block(subnets[i], prefix, j);
    assert !FreeAt(subnets, taken, prefix, i, j);
  }

  lemma AllocationUnique(subnets: seq<IpNet>, taken: seq<AddressSpec>, prefix: nat, r: Option<IpNet>, s: Option<IpNet>)
    requires CarveAllocation(subnets, taken, prefix, r) && CarveAllocation(subnets, taken, prefix, s)
    ensures r == s
  {
    var nets :| TakenNets(nets, taken) && CarveAnswer(subnets, nets, prefix, r);
    var same :| TakenNets(same, taken) && CarveAnswer(subnets, same, prefix, s);
    assert nets == same;
  }

  // ---- Capacity ----

  /** Something no longer than a block in address terms meets at most one of the blocks. */
  lemma MeetsOneBlock(n: IpNet, prefix: nat, t: IpNet, i: nat, j: nat)
    requires Fits(n, prefix) && i < j < BlockCount(n, prefix)
    requires t.prefix >= prefix
    ensures Disjoint(Block(n, prefix, i), t) || Disjoint(Block(n, prefix, j), t)
  {
    var b, c := Block(n, prefix, i), Block(n, prefix, j);
    if x: IpAddr :| Contains(b, x) && Contains(t, x) {
      SharedMeansNested(t, b, x);
      forall y: IpAddr ensures !(Contains(c, y) && Contains(t, y)) {
        BlocksApart(n, prefix, i, j, y);
      }
    }
  }

  ghost predicate Blocked(n: IpNet, prefix: nat, j: nat, taken: set<IpNet>)
    requires Fits(n, prefix) && j < BlockCount(n, prefix)
  {
    exists t :: t in taken && !Disjoint(Block(n, prefix, j), t)
  }

  /** With the first `k` blocks unusable, `k` of the taken networks or the server address stand in the way. */
  lemma {:induction false} BlockersCounted(n: IpNet, prefix: nat, taken: set<IpNet>, k: nat)
      returns (blockers: set<IpNet>)
    requires Fits(n, prefix) && k <= BlockCount(n, prefix)
    requires forall t :: t in taken ==> t.prefix >= prefix
    requires forall j: nat :: j < k ==> Blocked(n, prefix, j, taken)
    ensures blockers <= taken && |blockers| == k
    ensures forall t :: t in blockers ==> exists j: nat :: j < k && !Disjoint(Block(n, prefix, j), t)
  {
    if k == 0 {
      blockers := {};
    } else {
      var rest := BlockersCounted(n, prefix, taken, k - 1);
      assert Blocked(n, prefix, k - 1, taken);
      var t :| t in taken && !Disjoint(Block(n, prefix, k - 1), t);
      assert t !in rest by {
        forall j: nat | j < k - 1 ensures Disjoint(Block(n, prefix, j), t) {
          MeetsOneBlock(n, prefix, t, j, k - 1);
        }
      }
      blockers := rest + {t};
    }
  }

  /**
   Carving succeeds when everything taken is no larger than the requested block and
   some fitting subnet has more blocks than there are taken networks, plus one for
   the server address.
   */
  lemma CarvingCapacity(subnets: seq<IpNet>, taken: set<IpNet>, prefix: nat, r: Option<IpNet>, i: nat)
    requires CarveAnswer(subnets, taken, prefix, r)
    requires forall t :: t in taken ==> t.prefix >= prefix
    requires i < |subnets| && Fits(subnets[i], prefix)
    requires BlockCount(subnets[i], prefix) > |taken| + 1
    ensures r.Some?
  {
    if r.None? {
      var n := subnets[i];
      var server := HostNet(Addr(n));
      var all := taken + {server};
      forall j: nat | j < BlockCount(n, prefix)
        ensures Blocked(n, prefix, j, all)
      {
        assert !FreeAt(subnets, taken, prefix, i, j);
        ContainsOwn(server);
        if Contains(Block(n, prefix, j), Addr(n)) {
          assert !Disjoint(Block(n, prefix, j), server);
        }
      }
      var blockers := BlockersCounted(n, prefix, all, BlockCount(n, prefix));
      SubsetIsSmaller(blockers, all);
      UnionCount(taken, {server});
      assert false;
    }
  }
}
