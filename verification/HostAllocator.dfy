/**
 First-fit allocation of one host address in each subnet of an interface.

 What is in use arrives as the address strings of the existing devices, each a list
 of tokens.  A host allocation looks only at the address in front of the slash.
 */
module HostAllocator {
  import opened AddressTexts
  import opened Cidr
  import opened Sequences
  import opened Wrappers

  // ---- What the answer means ----

  predicate Lists(spec: AddressSpec, a: IpAddr) {
    exists j :: 0 <= j < |spec| && spec[j].addr == Some(a)
  }

  ghost predicate InUse(used: set<IpAddr>, subnets: seq<IpNet>, taken: seq<AddressSpec>) {
    forall a: IpAddr :: a in used <==>
      || (exists i :: 0 <= i < |taken| && Lists(taken[i], a))
      || (exists i :: 0 <= i < |subnets| && Addr(subnets[i]) == a)
  }

  ghost predicate LowestFree(n: IpNet, used: set<IpAddr>, a: IpAddr) {
    && IsCandidate(n, a)
    && a !in used
    && forall b: IpAddr :: IsCandidate(n, b) && b.value < a.value ==> b in used
  }

  ghost predicate Exhausted(n: IpNet, used: set<IpAddr>) {
    forall a: IpAddr :: IsCandidate(n, a) ==> a in used
  }

  /** `picks` are the choices for the first subnets, each made with the earlier ones counted as used. */
  ghost predicate Chosen(subnets: seq<IpNet>, used: set<IpAddr>, picks: seq<IpAddr>) {
    && |picks| <= |subnets|
    && forall i :: 0 <= i < |picks| ==> LowestFree(subnets[i], used + Elems(picks[..i]), picks[i])
  }

  function HostNet(a: IpAddr): IpNet {
    RawNet(a.family, a.value, Bits(a.family))
  }

  function HostNets(picks: seq<IpAddr>): (nets: seq<IpNet>)
    ensures |nets| == |picks|
    ensures forall i :: 0 <= i < |picks| ==> nets[i] == HostNet(picks[i])
  {
    seq(|picks|, i requires 0 <= i < |picks| => HostNet(picks[i]))
  }

  /** The allocator's answer: a host in every subnet, or the first subnet that has none left. */
  ghost predicate HostAnswer(subnets: seq<IpNet>, used: set<IpAddr>, picks: seq<IpAddr>, r: Result<seq<IpNet>, IpNet>) {
    && Chosen(subnets, used, picks)
    && match r
       case Ok(nets) => |picks| == |subnets| && nets == HostNets(picks)
       case Err(n) => |picks| < |subnets| && n == subnets[|picks|] && Exhausted(n, used + Elems(picks))
  }

  // ---- The search ----

  /** What the allocator answers to its caller. */
  ghost predicate HostAllocation(subnets: seq<IpNet>, taken: seq<AddressSpec>, r: Result<seq<IpNet>, IpNet>) {
    exists used, picks :: InUse(used, subnets, taken) && HostAnswer(subnets, used, picks, r)
  }

  /** The addresses one device's string lists. */
  method AddressesOf(spec: AddressSpec) returns (used: set<IpAddr>)
    ensures forall a: IpAddr :: a in used <==> Lists(spec, a)
  {
    used := {};
    for j := 0 to |spec|
      invariant forall a: IpAddr :: a in used <==> Lists(spec[..j], a)
    {
      assert spec[..j + 1] == spec[..j] + [spec[j]];
      if spec[j].addr.Some? {
        used := used + {spec[j].addr.value};
      }
    }
    assert spec[..|spec|] == spec;
  }

  /** One of the first `n` devices lists the address. */
  ghost predicate ListedBefore(specs: seq<AddressSpec>, n: nat, a: IpAddr)
    requires n <= |specs|
  {
    exists k :: 0 <= k < n && Lists(specs[k], a)
  }

  lemma ListedNext(specs: seq<AddressSpec>, n: nat, a: IpAddr)
    requires n < |specs|
    ensures ListedBefore(specs, n + 1, a) <==> ListedBefore(specs, n, a) || Lists(specs[n], a)
  {
  }

  /** Collects the addresses listed in the device strings. */
  method ListedAddresses(p: Parser, taken: seq<string>) returns (used: set<IpAddr>)
    ensures forall a: IpAddr :: a in used <==> exists i :: 0 <= i < |taken| && Lists(AllParsed(p, taken)[i], a)
  {
    ghost var specs := AllParsed(p, taken);
    used := {};
    for i := 0 to |taken|
      invariant forall a: IpAddr :: a in used <==> ListedBefore(specs, i, a)
    {
      var listed := AddressesOf(Parsed(p, taken[i]));
      forall a: IpAddr ensures a in used + listed <==> ListedBefore(specs, i + 1, a) {
        ListedNext(specs, i, a);
      }
      used := used + listed;
    }
  }

  /** The lowest free host of one subnet, by walking the host iterator and skipping its two ends. */
  method FirstFreeHost(n: IpNet, used: set<IpAddr>) returns (r: Option<IpAddr>)
    ensures r.Some? ==> LowestFree(n, used, r.value)
    ensures r.None? ==> Exhausted(n, used)
  {
    var (lo, hi) := HostRange(n);
    for v := lo to hi + 1
      invariant forall a: IpAddr :: IsCandidate(n, a) && a.value < v ==> a in used
    {
      var host: IpAddr := RawAddr(n.family, v);
      if host == Network(n) || host == Broadcast(n) {
        continue;
      }
      if host !in used {
        return Some(host);
      }
    }
    return None;
  }

  method AllocateAddresses(p: Parser, subnets: seq<IpNet>, taken: seq<string>) returns (r: Result<seq<IpNet>, IpNet>)
    ensures HostAllocation(subnets, AllParsed(p, taken), r)
  {
    ghost var specs := AllParsed(p, taken);
    var used := ListedAddresses(p, taken);
    for i := 0 to |subnets|
      invariant forall a: IpAddr :: a in used <==>
        || (exists k :: 0 <= k < |specs| && Lists(specs[k], a))
        || (exists k :: 0 <= k < i && Addr(subnets[k]) == a)
    {
      used := used + {Addr(subnets[i])};
    }
    ghost var inUse, picks: seq<IpAddr> := used, [];
    assert InUse(inUse, subnets, specs);
    var out: seq<IpNet> := [];
    for i := 0 to |subnets|
      invariant Chosen(subnets, inUse, picks) && |picks| == i
      invariant used == inUse + Elems(picks)
      invariant out == HostNets(picks)
    {
      var host := FirstFreeHost(subnets[i], used);
      match host {
        case None =>
          assert HostAnswer(subnets, inUse, picks, Err(subnets[i]));
          return Err(subnets[i]);
        case Some(a) =>
          used := used + {a};
          out := out + [HostNet(a)];
          PickExtends(subnets, inUse, picks, a);
          picks := picks + [a];
      }
    }
    assert HostAnswer(subnets, inUse, picks, Ok(out));
    return Ok(out);
  }

  lemma PickExtends(subnets: seq<IpNet>, used: set<IpAddr>, picks: seq<IpAddr>, a: IpAddr)
    requires Chosen(subnets, used, picks) && |picks| < |subnets|
    requires LowestFree(subnets[|picks|], used + Elems(picks), a)
    ensures Chosen(subnets, used, picks + [a])
    ensures used + Elems(picks + [a]) == used + Elems(picks) + {a}
    ensures HostNets(picks + [a]) == HostNets(picks) + [HostNet(a)]
  {
    var longer := picks + [a];
    assert forall i :: 0 <= i <= |picks| ==> longer[..i] == picks[..i];
    assert picks[..|picks|] == picks;
  }

  // ---- Consequences ----

  lemma PrefixesGrow<T>(p: seq<T>, q: seq<T>, k: nat)
    requires k < |p| && k < |q| && p[..k] == q[..k] && p[k] == q[k]
    ensures p[..k + 1] == q[..k + 1]
  {
    assert p[..k + 1] == p[..k] + [p[k]] && q[..k + 1] == q[..k] + [q[k]];
  }

  lemma SameChoice(subnets: seq<IpNet>, used: set<IpAddr>, p: seq<IpAddr>, q: seq<IpAddr>, k: nat)
    requires Chosen(subnets, used, p) && Chosen(subnets, used, q)
    requires k < |p| && k < |q| && p[..k] == q[..k]
    ensures p[k] == q[k]
  {
  }

  lemma {:induction false} ChoicesUnique(subnets: seq<IpNet>, used: set<IpAddr>, p: seq<IpAddr>, q: seq<IpAddr>, k: nat)
    requires Chosen(subnets, used, p) && Chosen(subnets, used, q)
    requires k <= |p| && k <= |q|
    ensures p[..k] == q[..k]
  {
    if k > 0 {
      ChoicesUnique(subnets, used, p, q, k - 1);
      SameChoice(subnets, used, p, q, k - 1);
      PrefixesGrow(p, q, k - 1);
    }
  }

  lemma NextChoiceMeansFree(subnets: seq<IpNet>, used: set<IpAddr>, p: seq<IpAddr>, q: seq<IpAddr>)
    requires Chosen(subnets, used, p) && Chosen(subnets, used, q)
    requires |p| < |q|
    ensures !Exhausted(subnets[|p|], used + Elems(p))
  {
    ChoicesUnique(subnets, used, p, q, |p|);
    assert p[..|p|] == p;
  }

  /** The answer is determined by the subnets and the addresses in use. */
  lemma AnswerUnique(subnets: seq<IpNet>, used: set<IpAddr>, p: seq<IpAddr>, r: Result<seq<IpNet>, IpNet>,
                     q: seq<IpAddr>, s: Result<seq<IpNet>, IpNet>)
    requires HostAnswer(subnets, used, p, r) && HostAnswer(subnets, used, q, s)
    ensures r == s
  {
    if |p| < |q| {
      NextChoiceMeansFree(subnets, used, p, q);
    } else if |q| < |p| {
      NextChoiceMeansFree(subnets, used, q, p);
    } else {
      ChoicesUnique(subnets, used, p, q, |p|);
      assert p == p[..|p|] == q[..|p|] == q;
    }
  }

  lemma AllocationUnique(subnets: seq<IpNet>, taken: seq<AddressSpec>, r: Result<seq<IpNet>, IpNet>,
      s: Result<seq<IpNet>, IpNet>)
    requires HostAllocation(subnets, taken, r) && HostAllocation(subnets, taken, s)
    ensures r == s
  {
    var used, p :| InUse(used, subnets, taken) && HostAnswer(subnets, used, p, r);
    var same, q :| InUse(same, subnets, taken) && HostAnswer(subnets, same, q, s);
    assert used == same;
    AnswerUnique(subnets, used, p, r, q, s);
  }

  /** The hosts handed out are new, differ from each other and lie strictly inside their subnets. */
  lemma PicksAreFresh(subnets: seq<IpNet>, used: set<IpAddr>, picks: seq<IpAddr>)
    requires Chosen(subnets, used, picks)
    ensures forall i :: 0 <= i < |picks| ==> picks[i] !in used && IsCandidate(subnets[i], picks[i])
    ensures forall i, j :: 0 <= i < j < |picks| ==> picks[i] != picks[j]
  {
    forall i | 0 <= i < |picks|
      ensures picks[i] !in used && IsCandidate(subnets[i], picks[i])
      ensures forall j :: 0 <= j < i ==> picks[i] != picks[j]
    {
      assert LowestFree(subnets[i], used + Elems(picks[..i]), picks[i]);
      assert forall j :: 0 <= j < i ==> picks[..i][j] in Elems(picks[..i]);
    }
  }

  lemma SubsetIsSmaller<T>(a: set<T>, b: set<T>)
    requires a <= b
    ensures |a| <= |b|
    ensures |a| == |b| ==> a == b
  {
    var rest := b - a;
    assert b == a + rest;
    assert |b| == |a| + |rest|;
  }

  lemma {:induction false} ElemsCount<T>(s: seq<T>)
    ensures |Elems(s)| <= |s|
  {
    if s != [] {
      var init, last := s[..|s| - 1], s[|s| - 1];
      ElemsCount(init);
      assert s == init + [last];
      assert Elems(s) == Elems(init) + {last};
    } else {
      assert Elems(s) == {};
    }
  }

  lemma UnionCount<T>(a: set<T>, b: set<T>)
    ensures |a + b| <= |a| + |b|
  {
    assert a + b == a + (b - a);
    assert |a + (b - a)| == |a| + |b - a|;
    SubsetIsSmaller(b - a, b);
  }

  /** By pigeonhole: with more candidates in the i-th subnet than addresses in use plus i, nothing runs out. */
  lemma EnoughCandidates(subnets: seq<IpNet>, used: set<IpAddr>, picks: seq<IpAddr>, r: Result<seq<IpNet>, IpNet>)
    requires HostAnswer(subnets, used, picks, r)
    requires forall i :: 0 <= i < |subnets| ==> CandidateCount(subnets[i]) > |used| + i
    ensures r.Ok?
  {
    if r.Err? {
      var n := r.error;
      forall a | a in Candidates(n) ensures a in used + Elems(picks) {
        CandidatesAre(n, a);
      }
      SubsetIsSmaller(Candidates(n), used + Elems(picks));
      CandidatesCounted(n);
      UnionCount(used, Elems(picks));
      ElemsCount(picks);
      assert false;
    }
  }

  /** A subnet is exhausted exactly when as many of its candidates are in use as it has. */
  lemma ExhaustedByCount(n: IpNet, used: set<IpAddr>)
    ensures Exhausted(n, used) <==> |used * Candidates(n)| == CandidateCount(n)
  {
    CandidatesCounted(n);
    SubsetIsSmaller(used * Candidates(n), Candidates(n));
    forall a: IpAddr ensures a in Candidates(n) <==> IsCandidate(n, a) {
      CandidatesAre(n, a);
    }
    if Exhausted(n, used) {
      assert used * Candidates(n) == Candidates(n);
    }
  }

  /**
   Exact capacity for subnets that do not overlap: the call fails exactly when some
   subnet has all its candidates in use before the call.
   */
  lemma DisjointSubnetsCapacity(subnets: seq<IpNet>, used: set<IpAddr>, picks: seq<IpAddr>,
      r: Result<seq<IpNet>, IpNet>)
    requires HostAnswer(subnets, used, picks, r)
    requires forall i, j :: 0 <= i < j < |subnets| ==> !NetsOverlap(subnets[i], subnets[j])
    ensures r.Err? <==> exists i :: 0 <= i < |subnets| && |used * Candidates(subnets[i])| == CandidateCount(subnets[i])
  {
    PicksAreFresh(subnets, used, picks);
    forall i | 0 <= i < |subnets|
      ensures |used * Candidates(subnets[i])| == CandidateCount(subnets[i]) <==> Exhausted(subnets[i], used)
    {
      ExhaustedByCount(subnets[i], used);
    }
    if r.Err? {
      var k := |picks|;
      forall a: IpAddr | IsCandidate(subnets[k], a) ensures a in used {
        forall i | 0 <= i < |picks| ensures picks[i] != a {
          CandidatesApart(subnets[i], subnets[k], a);
        }
        assert a in used + Elems(picks);
      }
      assert Exhausted(subnets[k], used);
    } else {
      forall i | 0 <= i < |subnets| ensures !Exhausted(subnets[i], used) {
        assert IsCandidate(subnets[i], picks[i]) && picks[i] !in used;
      }
    }
  }

  lemma CandidatesApart(n: IpNet, m: IpNet, a: IpAddr)
    requires !NetsOverlap(n, m)
    requires IsCandidate(m, a)
    ensures !IsCandidate(n, a)
  {
    OverlapLaw(n, m);
    assert Contains(m, a);
  }
}
