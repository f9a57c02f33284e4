/**
 Runs of automatic allocations and deletions on one interface.

 A lease is what one device row holds: a host address in every subnet, or one carved
 block.  Leases are kept in creation order.  Both allocators see the other devices
 only through their address strings.
 */
module LeaseRuns {
  import opened AddressTexts
  import opened Arithmetic
  import opened Wrappers
  import opened Cidr
  import opened HostAllocator
  import opened Sequences
  import opened SubnetAllocator

  datatype Lease =
    | Hosts(hosts: seq<IpNet>)
    | Carved(block: IpNet)

  function Nets(l: Lease): seq<IpNet> {
    match l
    case Hosts(h) => h
    case Carved(b) => [b]
  }

  /** A network as it reads back from an address string. */
  function NetToken(n: IpNet): Token {
    Token(Some(Addr(n)), Some(n))
  }

  function Spec(l: Lease): (s: AddressSpec)
    ensures |s| == |Nets(l)| && forall k :: 0 <= k < |s| ==> s[k] == NetToken(Nets(l)[k])
  {
    seq(|Nets(l)|, k requires 0 <= k < |Nets(l)| => NetToken(Nets(l)[k]))
  }

  function Specs(live: seq<Lease>): (s: seq<AddressSpec>)
    ensures |s| == |live| && forall i :: 0 <= i < |s| ==> s[i] == Spec(live[i])
  {
    seq(|live|, i requires 0 <= i < |live| => Spec(live[i]))
  }

  datatype Op =
    | AddHosts
    | Carve(prefix: nat)
    | Delete(index: nat)

  ghost predicate HostStep(subnets: seq<IpNet>, live: seq<Lease>, live': seq<Lease>) {
    exists r ::
      && HostAllocation(subnets, Specs(live), r)
      && live' == (match r case Ok(h) => live + [Hosts(h)] case Err(_) => live)
  }

  ghost predicate CarveStep(subnets: seq<IpNet>, live: seq<Lease>, prefix: nat, live': seq<Lease>) {
    exists r ::
      && CarveAllocation(subnets, Specs(live), prefix, r)
      && live' == (match r case Some(b) => live + [Carved(b)] case None => live)
  }

  ghost predicate Step(subnets: seq<IpNet>, live: seq<Lease>, op: Op, live': seq<Lease>) {
    match op
    case AddHosts => HostStep(subnets, live, live')
    case Carve(prefix) => CarveStep(subnets, live, prefix, live')
    case Delete(i) => live' == if i < |live| then live[..i] + live[i + 1..] else live
  }

  ghost predicate IsRun(subnets: seq<IpNet>, ops: seq<Op>, states: seq<seq<Lease>>) {
    && |states| == |ops| + 1
    && states[0] == []
    && forall i :: 0 <= i < |ops| ==> Step(subnets, states[i], ops[i], states[i + 1])
  }

  // ---- The invariant ----

  ghost predicate LeasesDisjoint(a: Lease, b: Lease) {
    forall m, n :: m in Nets(a) && n in Nets(b) ==> Disjoint(m, n)
  }

  /** What a lease is by itself: never a server address, never its own subnet's server inside. */
  ghost predicate Proper(subnets: seq<IpNet>, l: Lease) {
    match l
    case Hosts(h) =>
      && |h| == |subnets|
      && (forall k, i :: 0 <= k < |h| && 0 <= i < |subnets| ==> Addr(h[k]) != Addr(subnets[i]))
      && (forall k :: 0 <= k < |h| ==> h[k].prefix == Bits(h[k].family) && IsCandidate(subnets[k], Addr(h[k])))
      && (forall k, m :: 0 <= k < m < |h| ==> Disjoint(h[k], h[m]))
    case Carved(b) =>
      && Network(b) == Addr(b)
      && exists i :: 0 <= i < |subnets| && Inside(b, subnets[i]) && !Contains(b, Addr(subnets[i]))
  }

  ghost predicate ListedApart(a: Lease, b: Lease) {
    forall m, n :: m in Nets(a) && n in Nets(b) ==> Addr(m) != Addr(n)
  }

  /**
   In creation order: listed addresses never repeat, and two leases share an address
   only if a block came first and a host allocation later.
   */
  ghost predicate Safe(subnets: seq<IpNet>, live: seq<Lease>) {
    && (forall i :: 0 <= i < |live| ==> Proper(subnets, live[i]))
    && (forall i, j :: 0 <= i < j < |live| ==>
      && ListedApart(live[i], live[j])
      && (LeasesDisjoint(live[i], live[j]) || (live[i].Carved? && live[j].Hosts?)))
  }

  lemma ListedInSpec(l: Lease, m: IpNet)
    requires m in Nets(l)
    ensures Lists(Spec(l), Addr(m)) && m in TokenNets(Spec(l))
  {
    var k :| 0 <= k < |Nets(l)| && Nets(l)[k] == m;
    assert Spec(l)[k] == NetToken(m);
  }

  lemma FullPrefixHoldsOneAddress(n: IpNet, x: IpAddr)
    requires n.prefix == Bits(n.family)
    ensures Contains(n, x) <==> x == Addr(n)
  {
    ContainsBySlot(n, x);
  }

  lemma FullPrefixDisjoint(m: IpNet, n: IpNet)
    requires m.prefix == Bits(m.family) && n.prefix == Bits(n.family)
    requires Addr(m) != Addr(n)
    ensures Disjoint(m, n)
  {
    forall x: IpAddr ensures !(Contains(m, x) && Contains(n, x)) {
      FullPrefixHoldsOneAddress(m, x);
      FullPrefixHoldsOneAddress(n, x);
    }
  }

  lemma NewHostsProper(subnets: seq<IpNet>, specs: seq<AddressSpec>, used: set<IpAddr>, picks: seq<IpAddr>,
      h: seq<IpNet>)
    requires InUse(used, subnets, specs) && HostAnswer(subnets, used, picks, Ok(h))
    ensures Proper(subnets, Hosts(h))
    ensures forall k :: 0 <= k < |h| ==> Addr(h[k]) !in used
  {
    PicksAreFresh(subnets, used, picks);
    forall k | 0 <= k < |h|
      ensures Addr(h[k]) == picks[k] && h[k].prefix == Bits(h[k].family)
    {
      assert h[k] == HostNet(picks[k]);
    }
    forall k, m | 0 <= k < m < |h| ensures Disjoint(h[k], h[m]) {
      FullPrefixDisjoint(h[k], h[m]);
    }
  }

  lemma NewHostsApart(subnets: seq<IpNet>, live: seq<Lease>, used: set<IpAddr>, h: seq<IpNet>, i: nat)
    requires InUse(used, subnets, Specs(live))
    requires Proper(subnets, Hosts(h)) && forall k :: 0 <= k < |h| ==> Addr(h[k]) !in used
    requires i < |live| && Proper(subnets, live[i])
    ensures ListedApart(live[i], Hosts(h))
    ensures LeasesDisjoint(live[i], Hosts(h)) || live[i].Carved?
  {
    forall m, n | m in Nets(live[i]) && n in h ensures Addr(m) != Addr(n) {
      ListedInSpec(live[i], m);
      assert Specs(live)[i] == Spec(live[i]);
      assert Addr(m) in used;
    }
    if live[i].Hosts? {
      forall m, n | m in Nets(live[i]) && n in h ensures Disjoint(m, n) {
        FullPrefixDisjoint(m, n);
      }
    }
  }

  lemma NewBlockApart(subnets: seq<IpNet>, live: seq<Lease>, nets: set<IpNet>, prefix: nat, b: IpNet)
    requires TakenNets(nets, Specs(live)) && CarveAnswer(subnets, nets, prefix, Some(b))
    ensures Proper(subnets, Carved(b))
    ensures forall i :: 0 <= i < |live| ==> ListedApart(live[i], Carved(b)) && LeasesDisjoint(live[i], Carved(b))
  {
    CarvedBlock(subnets, nets, prefix, b);
    forall i, m | 0 <= i < |live| && m in Nets(live[i])
      ensures Disjoint(m, b) && Addr(m) != Addr(b)
    {
      ListedInSpec(live[i], m);
      assert Specs(live)[i] == Spec(live[i]);
      assert Disjoint(b, m);
      ContainsOwn(m);
      ContainsOwn(b);
    }
  }

  lemma AppendKeepsSafe(subnets: seq<IpNet>, live: seq<Lease>, l: Lease)
    requires Safe(subnets, live) && Proper(subnets, l)
    requires forall i :: 0 <= i < |live| ==> ListedApart(live[i], l)
    requires forall i :: 0 <= i < |live| ==> LeasesDisjoint(live[i], l) || (live[i].Carved? && l.Hosts?)
    ensures Safe(subnets, live + [l])
  {
  }

  lemma DeleteKeepsSafe(subnets: seq<IpNet>, live: seq<Lease>, i: nat)
    requires Safe(subnets, live) && i < |live|
    ensures Safe(subnets, live[..i] + live[i + 1..])
  {
    var live' := live[..i] + live[i + 1..];
    assert forall k :: 0 <= k < |live'| ==> live'[k] == live[if k < i then k else k + 1];
  }

  lemma HostStepKeepsSafe(subnets: seq<IpNet>, live: seq<Lease>, live': seq<Lease>)
    requires Safe(subnets, live) && HostStep(subnets, live, live')
    ensures Safe(subnets, live')
  {
    var r :| HostAllocation(subnets, Specs(live), r)
      && live' == (match r case Ok(h) => live + [Hosts(h)] case Err(_) => live);
    if r.Ok? {
      var used, picks :| InUse(used, subnets, Specs(live)) && HostAnswer(subnets, used, picks, r);
      NewHostsProper(subnets, Specs(live), used, picks, r.value);
      forall i | 0 <= i < |live|
        ensures ListedApart(live[i], Hosts(r.value))
        ensures LeasesDisjoint(live[i], Hosts(r.value)) || live[i].Carved?
      {
        NewHostsApart(subnets, live, used, r.value, i);
      }
      AppendKeepsSafe(subnets, live, Hosts(r.value));
    }
  }

  lemma CarveStepKeepsSafe(subnets: seq<IpNet>, live: seq<Lease>, prefix: nat, live': seq<Lease>)
    requires Safe(subnets, live) && CarveStep(subnets, live, prefix, live')
    ensures Safe(subnets, live')
  {
    var r :| CarveAllocation(subnets, Specs(live), prefix, r)
      && live' == (match r case Some(b) => live + [Carved(b)] case None => live);
    if r.Some? {
      var nets :| TakenNets(nets, Specs(live)) && CarveAnswer(subnets, nets, prefix, r);
      NewBlockApart(subnets, live, nets, prefix, r.value);
      AppendKeepsSafe(subnets, live, Carved(r.value));
    }
  }

  lemma StepKeepsSafe(subnets: seq<IpNet>, live: seq<Lease>, op: Op, live': seq<Lease>)
    requires Safe(subnets, live) && Step(subnets, live, op, live')
    ensures Safe(subnets, live')
  {
    match op
    case Delete(i) => if i < |live| { DeleteKeepsSafe(subnets, live, i); }
    case AddHosts => HostStepKeepsSafe(subnets, live, live');
    case Carve(prefix) => CarveStepKeepsSafe(subnets, live, prefix, live');
  }

  lemma RunStep(subnets: seq<IpNet>, ops: seq<Op>, states: seq<seq<Lease>>, k: nat)
    requires IsRun(subnets, ops, states) && k < |ops|
    ensures Step(subnets, states[k], ops[k], states[k + 1])
  {
  }

  /** Every state of every run is safe. */
  lemma {:induction false} RunsAreSafe(subnets: seq<IpNet>, ops: seq<Op>, states: seq<seq<Lease>>, k: nat)
    requires IsRun(subnets, ops, states) && k <= |ops|
    ensures Safe(subnets, states[k])
  {
    if k > 0 {
      RunsAreSafe(subnets, ops, states, k - 1);
      RunStep(subnets, ops, states, k - 1);
      StepKeepsSafe(subnets, states[k - 1], ops[k - 1], states[k]);
    }
  }

  lemma StepAppends(subnets: seq<IpNet>, live: seq<Lease>, op: Op, live': seq<Lease>)
    requires Step(subnets, live, op, live') && |live'| > |live|
    ensures live' == live + [live'[|live|]]
  {
  }

  lemma SafeMeansNewAddresses(subnets: seq<IpNet>, live: seq<Lease>, l: Lease, i: nat)
    requires subnets != [] && Safe(subnets, live + [l]) && i < |live|
    ensures Nets(live[i]) != Nets(l)
  {
    var all := live + [l];
    assert Proper(subnets, all[|live|]) && ListedApart(all[i], all[|live|]);
    assert Nets(l)[0] in Nets(l);
  }

  /**
   The unique (interface, address) constraint never fires: an insert always brings
   an address string that no live device has, however addresses are printed, as long as
   what is printed can be read back.
   */
  lemma UniqueConstraintNeverFires(subnets: seq<IpNet>, ops: seq<Op>, states: seq<seq<Lease>>, k: nat, i: nat,
                                   show: seq<IpNet> -> string, read: string -> seq<IpNet>)
    requires subnets != []
    requires IsRun(subnets, ops, states) && k < |ops|
    requires i < |states[k]| < |states[k + 1]|
    requires forall x: seq<IpNet> :: read(show(x)) == x
    ensures states[k + 1] == states[k] + [states[k + 1][|states[k]|]]
    ensures show(Nets(states[k][i])) != show(Nets(states[k + 1][|states[k]|]))
  {
    RunsAreSafe(subnets, ops, states, k + 1);
    RunStep(subnets, ops, states, k);
    StepAppends(subnets, states[k], ops[k], states[k + 1]);
    SafeMeansNewAddresses(subnets, states[k], states[k + 1][|states[k]|], i);
  }

  predicate NeverCarves(ops: seq<Op>) {
    forall i :: 0 <= i < |ops| ==> !ops[i].Carve?
  }

  predicate OnlyCarves(ops: seq<Op>) {
    forall i :: 0 <= i < |ops| ==> !ops[i].AddHosts?
  }

  lemma {:induction false} KindsComeFromOps(subnets: seq<IpNet>, ops: seq<Op>, states: seq<seq<Lease>>, k: nat)
    requires IsRun(subnets, ops, states) && k <= |ops|
    ensures NeverCarves(ops) ==> forall i :: 0 <= i < |states[k]| ==> states[k][i].Hosts?
    ensures OnlyCarves(ops) ==> forall i :: 0 <= i < |states[k]| ==> states[k][i].Carved?
  {
    if k > 0 {
      KindsComeFromOps(subnets, ops, states, k - 1);
      assert Step(subnets, states[k - 1], ops[k - 1], states[k]);
    }
  }

  /** Host allocations without carvings, and carvings without host allocations, keep all live leases disjoint. */
  lemma PureRunsStayDisjoint(subnets: seq<IpNet>, ops: seq<Op>, states: seq<seq<Lease>>, k: nat, i: nat, j: nat)
    requires IsRun(subnets, ops, states) && k <= |ops|
    requires NeverCarves(ops) || OnlyCarves(ops)
    requires i < j < |states[k]|
    ensures LeasesDisjoint(states[k][i], states[k][j])
  {
    RunsAreSafe(subnets, ops, states, k);
    KindsComeFromOps(subnets, ops, states, k);
  }

  // ---- A host can land inside a carved block ----

  /** Nothing of the subnet below the block is left, and something in the block is. */
  ghost predicate NextFallsIn(n: IpNet, used: set<IpAddr>, b: IpNet) {
    && (forall c: IpAddr :: IsCandidate(n, c) && c.value < Network(b).value ==> c in used)
    && (exists c: IpAddr :: IsCandidate(n, c) && Contains(b, c) && c !in used)
  }

  /** When a host allocation falls into a block, wherever that block lies. */
  lemma HostLandsInBlock(n: IpNet, used: set<IpAddr>, a: IpAddr, b: IpNet)
    requires LowestFree(n, used, a)
    ensures Contains(b, a) <==> NextFallsIn(n, used, b)
  {
  }

  ghost predicate AllDisjoint(live: seq<Lease>) {
    forall i, j :: 0 <= i < j < |live| ==> LeasesDisjoint(live[i], live[j])
  }

  lemma FullPrefixOutside(b: IpNet, a: IpAddr)
    ensures Disjoint(b, HostNet(a)) <==> !Contains(b, a)
  {
    FullPrefixHoldsOneAddress(HostNet(a), a);
    forall x: IpAddr | Contains(HostNet(a), x) ensures x == a {
      FullPrefixHoldsOneAddress(HostNet(a), x);
    }
  }

  /** The new hosts avoid a carved block exactly when no subnet's next address falls into it. */
  lemma HostsAvoidBlock(subnets: seq<IpNet>, used: set<IpAddr>, picks: seq<IpAddr>, h: seq<IpNet>, b: IpNet)
    requires HostAnswer(subnets, used, picks, Ok(h))
    ensures LeasesDisjoint(Carved(b), Hosts(h))
       <==> forall k :: 0 <= k < |picks| ==> !NextFallsIn(subnets[k], used + Elems(picks[..k]), b)
  {
    forall k | 0 <= k < |picks|
      ensures h[k] == HostNet(picks[k])
      ensures Disjoint(b, h[k]) <==> !NextFallsIn(subnets[k], used + Elems(picks[..k]), b)
    {
      FullPrefixOutside(b, picks[k]);
      HostLandsInBlock(subnets[k], used + Elems(picks[..k]), picks[k], b);
    }
    assert forall m :: m in Nets(Carved(b)) <==> m == b;
    assert forall k :: 0 <= k < |h| ==> h[k] in Nets(Hosts(h));
  }

  /** The allocator's next choice in a subnet, if there is one. */
  ghost function NextFree(n: IpNet, used: set<IpAddr>): set<IpAddr> {
    if exists a: IpAddr :: LowestFree(n, used, a) then
      var a: IpAddr :| LowestFree(n, used, a);
      {a}
    else {}
  }

  lemma NextFreeIs(n: IpNet, used: set<IpAddr>, a: IpAddr)
    requires LowestFree(n, used, a)
    ensures NextFree(n, used) == {a}
  {
  }

  /** The k-th pick is the allocator's next choice with the earlier picks counted as used. */
  ghost predicate InTurn(subnets: seq<IpNet>, used: set<IpAddr>, picks: seq<IpAddr>, k: nat)
    requires k < |subnets| && k < |picks|
  {
    NextFree(subnets[k], used + Elems(picks[..k])) == {picks[k]}
  }

  lemma ChosenInTurn(subnets: seq<IpNet>, used: set<IpAddr>, picks: seq<IpAddr>, k: nat)
    requires Chosen(subnets, used, picks) && k < |picks|
    ensures InTurn(subnets, used, picks, k)
  {
    NextFreeIs(subnets[k], used + Elems(picks[..k]), picks[k]);
  }

  lemma ElemsGrow<T>(s: seq<T>, k: nat)
    requires k < |s|
    ensures Elems(s[..k + 1]) == Elems(s[..k]) + {s[k]}
  {
    assert s[..k + 1] == s[..k] + [s[k]];
  }

  /** What counts as used when the k-th subnet's turn comes, worked out before the call. */
  ghost function UsedInTurn(subnets: seq<IpNet>, used: set<IpAddr>, k: nat): set<IpAddr>
    requires k <= |subnets|
  {
    if k == 0 then used
    else
      var before := UsedInTurn(subnets, used, k - 1);
      before + NextFree(subnets[k - 1], before)
  }

  lemma TurnNext(subnets: seq<IpNet>, used: set<IpAddr>, picks: seq<IpAddr>, k: nat)
    requires k < |subnets| && k < |picks|
    requires UsedInTurn(subnets, used, k) == used + Elems(picks[..k])
    requires InTurn(subnets, used, picks, k)
    ensures UsedInTurn(subnets, used, k + 1) == used + Elems(picks[..k + 1])
  {
    ElemsGrow(picks, k);
  }

  lemma {:induction false} UsedInTurnIs(subnets: seq<IpNet>, used: set<IpAddr>, picks: seq<IpAddr>, k: nat)
    requires |picks| <= |subnets| && k <= |picks|
    requires forall i :: 0 <= i < |picks| ==> InTurn(subnets, used, picks, i)
    ensures UsedInTurn(subnets, used, k) == used + Elems(picks[..k])
  {
    if k > 0 {
      UsedInTurnIs(subnets, used, picks, k - 1);
      TurnNext(subnets, used, picks, k - 1);
    }
  }

  lemma PickByPick(subnets: seq<IpNet>, live: seq<Lease>, used: set<IpAddr>, picks: seq<IpAddr>, h: seq<IpNet>)
    requires Safe(subnets, live) && AllDisjoint(live)
    requires InUse(used, subnets, Specs(live)) && HostAnswer(subnets, used, picks, Ok(h))
    ensures AllDisjoint(live + [Hosts(h)])
       <==> forall i, k :: 0 <= i < |live| && live[i].Carved? && 0 <= k < |picks|
              ==> !NextFallsIn(subnets[k], used + Elems(picks[..k]), live[i].block)
  {
    NewHostsProper(subnets, Specs(live), used, picks, h);
    forall i | 0 <= i < |live|
      ensures LeasesDisjoint(live[i], Hosts(h))
         <==> (live[i].Carved? ==>
               forall k :: 0 <= k < |picks| ==> !NextFallsIn(subnets[k], used + Elems(picks[..k]), live[i].block))
    {
      NewHostsApart(subnets, live, used, h, i);
      if live[i].Carved? {
        HostsAvoidBlock(subnets, used, picks, h, live[i].block);
      }
    }
    AppendedDisjoint(live, Hosts(h));
  }

  /** In no subnet does the next free address, as of its turn, fall into a carved block. */
  ghost predicate NoneFallsIn(subnets: seq<IpNet>, live: seq<Lease>, used: set<IpAddr>) {
    forall i, k :: 0 <= i < |live| && live[i].Carved? && 0 <= k < |subnets|
      ==> !NextFallsIn(subnets[k], UsedInTurn(subnets, used, k), live[i].block)
  }

  /**
   When a host allocation that succeeds keeps a disjoint state disjoint, for any subnets:
   exactly when in no subnet the next free address falls into a carved block.  The
   condition speaks only of the state before the call.
   */
  lemma HostStepStaysDisjoint(subnets: seq<IpNet>, live: seq<Lease>, used: set<IpAddr>, h: seq<IpNet>)
    requires Safe(subnets, live) && AllDisjoint(live) && InUse(used, subnets, Specs(live))
    requires HostAllocation(subnets, Specs(live), Ok(h))
    ensures HostStep(subnets, live, live + [Hosts(h)])
    ensures AllDisjoint(live + [Hosts(h)]) <==> NoneFallsIn(subnets, live, used)
  {
    var same, picks :| InUse(same, subnets, Specs(live)) && HostAnswer(subnets, same, picks, Ok(h));
    assert same == used;
    PickByPick(subnets, live, used, picks, h);
    forall k | 0 <= k < |picks| ensures InTurn(subnets, used, picks, k) {
      ChosenInTurn(subnets, used, picks, k);
    }
    forall k | 0 <= k < |subnets| ensures UsedInTurn(subnets, used, k) == used + Elems(picks[..k]) {
      UsedInTurnIs(subnets, used, picks, k);
    }
  }

  lemma {:induction false} OthersTurns(subnets: seq<IpNet>, used: set<IpAddr>, k: nat, c: IpAddr)
    requires k <= |subnets| && forall i :: 0 <= i < k ==> !IsCandidate(subnets[i], c)
    ensures c in UsedInTurn(subnets, used, k) <==> c in used
  {
    if k > 0 {
      OthersTurns(subnets, used, k - 1, c);
    }
  }

  ghost predicate Separate(subnets: seq<IpNet>) {
    forall i, j :: 0 <= i < j < |subnets| ==> !NetsOverlap(subnets[i], subnets[j])
  }

  lemma TurnIsIdle(subnets: seq<IpNet>, used: set<IpAddr>, k: nat, b: IpNet)
    requires Separate(subnets) && k < |subnets|
    ensures NextFallsIn(subnets[k], UsedInTurn(subnets, used, k), b) <==> NextFallsIn(subnets[k], used, b)
  {
    forall c: IpAddr | IsCandidate(subnets[k], c) ensures c in UsedInTurn(subnets, used, k) <==> c in used {
      forall j | 0 <= j < k ensures !IsCandidate(subnets[j], c) {
        CandidatesApart(subnets[j], subnets[k], c);
      }
      OthersTurns(subnets, used, k, c);
    }
  }

  /** In no subnet does the next free address as of now fall into a carved block. */
  ghost predicate NoneFallsInNow(subnets: seq<IpNet>, live: seq<Lease>, used: set<IpAddr>) {
    forall i, k :: 0 <= i < |live| && live[i].Carved? && 0 <= k < |subnets|
      ==> !NextFallsIn(subnets[k], used, live[i].block)
  }

  /** For subnets that do not overlap, what is in use before the call is all that counts. */
  lemma SeparateSubnetsTakeNoTurns(subnets: seq<IpNet>, live: seq<Lease>, used: set<IpAddr>)
    requires Separate(subnets)
    ensures NoneFallsIn(subnets, live, used) <==> NoneFallsInNow(subnets, live, used)
  {
    forall i, k | 0 <= i < |live| && live[i].Carved? && 0 <= k < |subnets|
      ensures NextFallsIn(subnets[k], UsedInTurn(subnets, used, k), live[i].block)
         <==> NextFallsIn(subnets[k], used, live[i].block)
    {
      TurnIsIdle(subnets, used, k, live[i].block);
    }
  }

  lemma AppendedDisjoint(live: seq<Lease>, l: Lease)
    requires AllDisjoint(live)
    ensures AllDisjoint(live + [l]) <==> forall i :: 0 <= i < |live| ==> LeasesDisjoint(live[i], l)
  {
    var all := live + [l];
    if AllDisjoint(all) {
      forall i | 0 <= i < |live| ensures LeasesDisjoint(live[i], l) {
        assert LeasesDisjoint(all[i], all[|live|]);
      }
    }
  }

  /**
   Disjointness does fail in mixed runs: whenever the server address is outside the
   first block of the requested length, carving and then adding one device hands out
   an address inside the carved block.
   */
  lemma CarveThenHostCollides(n: IpNet, prefix: nat) returns (states: seq<seq<Lease>>)
    requires Fits(n, prefix) && prefix < Bits(n.family)
    requires !Contains(Block(n, prefix, 0), Addr(n))
    ensures IsRun([n], [Carve(prefix), AddHosts], states)
    ensures |states[2]| == 2 && !LeasesDisjoint(states[2][0], states[2][1])
  {
    var b := Block(n, prefix, 0);
    var a := SecondAddress(n, prefix);
    FirstBlockCarved(n, prefix);
    SecondAddressHandedOut(n, b, a);
    states := [[], [Carved(b)], [Carved(b), Hosts([HostNet(a)])]];
    assert Step([n], states[0], Carve(prefix), states[1]);
    InsideCollides(b, a);
  }

  lemma InsideCollides(b: IpNet, a: IpAddr)
    requires Contains(b, a)
    ensures !LeasesDisjoint(Carved(b), Hosts([HostNet(a)]))
  {
    FullPrefixHoldsOneAddress(HostNet(a), a);
    assert HostNet(a) in Nets(Hosts([HostNet(a)])) && b in Nets(Carved(b));
    assert !Disjoint(b, HostNet(a));
  }

  lemma FirstBlockCarved(n: IpNet, prefix: nat)
    requires Fits(n, prefix)
    requires !Contains(Block(n, prefix, 0), Addr(n))
    ensures CarveStep([n], [], prefix, [Carved(Block(n, prefix, 0))])
  {
    var b := Block(n, prefix, 0);
    assert TakenNets({}, Specs([]));
    assert FreeAt([n], {}, prefix, 0, 0);
    assert CarveAnswer([n], {}, prefix, Some(b));
    assert CarveAllocation([n], Specs([]), prefix, Some(b));
    assert [] + [Carved(b)] == [Carved(b)];
  }

  lemma OneBlockInUse(n: IpNet, b: IpNet)
    ensures InUse({Addr(b), Addr(n)}, [n], Specs([Carved(b)]))
  {
    var specs := Specs([Carved(b)]);
    assert specs[0] == Spec(Carved(b)) && specs[0][0] == NetToken(b);
    assert forall a: IpAddr :: Lists(specs[0], a) <==> a == Addr(b);
    assert Addr([n][0]) == Addr(n);
  }

  lemma SecondAddressHandedOut(n: IpNet, b: IpNet, a: IpAddr)
    requires Addr(b) == Network(n) && a == RawAddr(n.family, Network(n).value + 1)
    requires IsCandidate(n, a) && a != Addr(n)
    ensures HostStep([n], [Carved(b)], [Carved(b), Hosts([HostNet(a)])])
  {
    var used := {Addr(b), Addr(n)};
    OneBlockInUse(n, b);
    assert LowestFree(n, used + Elems([a][..0]), a);
    assert HostAnswer([n], used, [a], Ok([HostNet(a)]));
    assert HostAllocation([n], Specs([Carved(b)]), Ok([HostNet(a)]));
    assert [Carved(b)] + [Hosts([HostNet(a)])] == [Carved(b), Hosts([HostNet(a)])];
  }

  lemma LoneBlockHoldsServer(n: IpNet, prefix: nat)
    requires Fits(n, prefix) && BlockCount(n, prefix) == 1
    ensures Contains(Block(n, prefix, 0), Addr(n))
  {
    BlockSlot(n, prefix, 0);
    BlocksFillSubnet(n, prefix);
    ContainsOwn(n);
    assert Broadcast(Block(n, prefix, 0)) == Broadcast(n);
  }

  lemma SecondAddress(n: IpNet, prefix: nat) returns (a: IpAddr)
    requires Fits(n, prefix) && prefix < Bits(n.family)
    requires !Contains(Block(n, prefix, 0), Addr(n))
    ensures a == RawAddr(n.family, Network(n).value + 1)
    ensures IsCandidate(n, a) && Contains(Block(n, prefix, 0), a)
    ensures Addr(Block(n, prefix, 0)) == Network(n)
  {
    var b := Block(n, prefix, 0);
    BlockSlot(n, prefix, 0);
    BlocksFillSubnet(n, prefix);
    Pow2Grows(1, Bits(n.family) - prefix);
    assert BlockSize(n, prefix) >= 2;
    ContainsOwn(n);
    if BlockCount(n, prefix) == 1 {
      LoneBlockHoldsServer(n, prefix);
    } else {
      ProductFalls(1, BlockCount(n, prefix), BlockSize(n, prefix));
    }
    a := RawAddr(n.family, Network(n).value + 1);
  }

  /** For instance: server 10.8.0.200/24, a carved /28, then one device. */
  lemma CollisionExample() returns (n: IpNet, states: seq<seq<Lease>>)
    ensures n == RawNet(V4, 168296648, 24)
    ensures IsRun([n], [Carve(28), AddHosts], states)
    ensures |states[2]| == 2 && !LeasesDisjoint(states[2][0], states[2][1])
  {
    SmallPowers();
    n := RawNet(V4, 168296648, 24);
    assert Size(n) == 256 && Slot(n) == 657408;
    BlockSlot(n, 28, 0);
    var b := Block(n, 28, 0);
    assert Network(b).value == 168296448 && Size(b) == 16;
    assert !Contains(b, Addr(n));
    states := CarveThenHostCollides(n, 28);
  }

  lemma SmallPowers()
    ensures Pow2(4) == 16 && Pow2(8) == 256 && Pow2(32) == 0x1_0000_0000
  {
    assert Pow2(2) == 4;
    Pow2Splits(2, 2);
    Pow2Splits(4, 4);
    Pow2Splits(8, 8);
    Pow2Splits(16, 16);
  }
}
