/**
 The same runs on what is stored: address strings, printed by one allocation and read
 back by the next.
 */
module LeaseTexts {
  import opened AddressTexts
  import opened Cidr
  import opened HostAllocator
  import opened LeaseRuns
  import opened Sequences
  import opened Strings
  import opened SubnetAllocator
  import opened Tokens
  import opened Wrappers

  // ---- Printing and reading ----

  /** A token of a list: not empty, without separators and white space. */
  predicate OneToken(s: string) {
    s != "" && Strings.Free(s, BLANKS + {',', ' '})
  }

  /** A network is printed as its address, a slash and its prefix length. */
  function Show(text: IpAddr -> string, n: IpNet): string {
    text(Addr(n)) + "/" + Decimal(n.prefix)
  }

  /**
   The two parsers read back what is printed.  An address prints without slashes,
   separators and white space, and the parsers are told nothing about other texts.
   */
  ghost predicate Readable(p: Parser, text: IpAddr -> string) {
    && (forall a: IpAddr ::
         OneToken(text(a)) && '/' !in text(a) && p.addr(text(a)) == Some(a))
    && (forall n: IpNet :: p.net(Show(text, n)) == Some(n))
  }

  lemma {:induction false} CutAtSlash(a: string, rest: string)
    requires Strings.Free(a, {'/'})
    ensures BeforeSlash(a) == a && BeforeSlash(a + "/" + rest) == a
  {
    if a != "" {
      assert (a + "/" + rest)[1..] == a[1..] + "/" + rest;
      assert [a[0]] + a[1..] == a;
      CutAtSlash(a[1..], rest);
    } else {
      assert "" + "/" + rest == "/" + rest;
    }
  }

  /**
   What the allocators see of any token: the whole token is read as a network, and what
   stands before its first slash, without white space at its ends, as an address.
   */
  lemma TokenRead(p: Parser, token: string, a: string, rest: string, t: string)
    requires Strings.Free(a, {'/'}) && (token == a || token == a + "/" + rest)
    requires Trimmed(a, t, BLANKS)
    ensures ParseToken(p, token) == Token(p.addr(t), p.net(token))
  {
    CutAtSlash(a, rest);
    TrimIs(a, t);
  }

  lemma ShownReadsBack(p: Parser, text: IpAddr -> string, n: IpNet)
    requires Readable(p, text)
    ensures OneToken(Show(text, n)) && ParseToken(p, Show(text, n)) == NetToken(n)
  {
    var a, s := text(Addr(n)), Show(text, n);
    forall k | 0 <= k < |s| ensures s[k] !in BLANKS + {',', ' '} {
      assert k > |a| ==> s[k] == Decimal(n.prefix)[k - |a| - 1];
    }
    NothingBlank(a, BLANKS);
    TokenRead(p, Show(text, n), a, Decimal(n.prefix), a);
  }

  /** Tokens joined by a comma and a space. */
  function Joined(tokens: seq<string>): string {
    if tokens == [] then ""
    else if |tokens| == 1 then tokens[0]
    else Joined(tokens[..|tokens| - 1]) + "," + " " + tokens[|tokens| - 1]
  }

  function Shown(text: IpAddr -> string, nets: seq<IpNet>): (tokens: seq<string>)
    ensures |tokens| == |nets| && forall k :: 0 <= k < |tokens| ==> tokens[k] == Show(text, nets[k])
  {
    seq(|nets|, k requires 0 <= k < |nets| => Show(text, nets[k]))
  }

  lemma OneTokenListed(t: string)
    requires OneToken(t)
    ensures Cidrs(t) == [t]
  {
    CidrsAreLists();
    NothingBlank(t, BLANKS);
  }

  lemma TokenAppended(s: string, t: string)
    requires OneToken(t)
    ensures Cidrs(s + "," + " " + t) == Cidrs(s) + [t]
  {
    var comma := s + ",";
    assert comma == s + [','] + "" && s + "," + " " + t == comma + [' '] + t;
    SeparatorSplits(s, ',', "");
    SeparatorSplits(comma, ' ', t);
    NoTokens();
    OneTokenListed(t);
  }

  lemma SeparatorSplits(a: string, c: char, b: string)
    requires c in {',', ' '}
    ensures Cidrs(a + [c] + b) == Cidrs(a) + Cidrs(b)
  {
    CidrsAreLists();
  }

  lemma NoTokens()
    ensures Cidrs("") == []
  {
    CidrsAreLists();
    NothingBlank<char>("", BLANKS);
  }

  /** A joined list splits back into its tokens. */
  lemma {:induction false} JoinedReadsBack(tokens: seq<string>)
    requires forall k :: 0 <= k < |tokens| ==> OneToken(tokens[k])
    ensures Cidrs(Joined(tokens)) == tokens
  {
    if tokens == [] {
      NoTokens();
    } else if |tokens| == 1 {
      OneTokenListed(tokens[0]);
    } else {
      var init, last := tokens[..|tokens| - 1], tokens[|tokens| - 1];
      JoinedReadsBack(init);
      TokenAppended(Joined(init), last);
      assert tokens == init + [last];
    }
  }

  function Printed(text: IpAddr -> string, nets: seq<IpNet>): string {
    Joined(Shown(text, nets))
  }

  function Texts(text: IpAddr -> string, live: seq<Lease>): (texts: seq<string>)
    ensures |texts| == |live| && forall i :: 0 <= i < |texts| ==> texts[i] == Printed(text, Nets(live[i]))
  {
    seq(|live|, i requires 0 <= i < |live| => Printed(text, Nets(live[i])))
  }

  lemma PrintedReadsBack(p: Parser, text: IpAddr -> string, l: Lease)
    requires Readable(p, text)
    ensures Parsed(p, Printed(text, Nets(l))) == Spec(l)
  {
    var tokens := Shown(text, Nets(l));
    forall k | 0 <= k < |tokens| ensures OneToken(tokens[k]) && ParseToken(p, tokens[k]) == NetToken(Nets(l)[k]) {
      ShownReadsBack(p, text, Nets(l)[k]);
    }
    JoinedReadsBack(tokens);
  }

  lemma TextsReadBack(p: Parser, text: IpAddr -> string, live: seq<Lease>)
    requires Readable(p, text)
    ensures AllParsed(p, Texts(text, live)) == Specs(live)
  {
    forall i | 0 <= i < |live| ensures AllParsed(p, Texts(text, live))[i] == Specs(live)[i] {
      PrintedReadsBack(p, text, live[i]);
    }
  }

  // ---- Steps and runs on strings ----

  ghost predicate TextStep(p: Parser, text: IpAddr -> string, subnets: seq<IpNet>, texts: seq<string>, op: Op,
      texts': seq<string>)
  {
    match op
    case AddHosts =>
      exists r :: HostAllocation(subnets, AllParsed(p, texts), r)
        && texts' == (match r case Ok(h) => texts + [Printed(text, h)] case Err(_) => texts)
    case Carve(prefix) =>
      exists r :: CarveAllocation(subnets, AllParsed(p, texts), prefix, r)
        && texts' == (match r case Some(b) => texts + [Show(text, b)] case None => texts)
    case Delete(i) => texts' == if i < |texts| then texts[..i] + texts[i + 1..] else texts
  }

  /** Adding a device: allocate against the stored strings and store the printed answer. */
  method AddDevice(p: Parser, text: IpAddr -> string, subnets: seq<IpNet>, texts: seq<string>)
      returns (texts': seq<string>)
    ensures TextStep(p, text, subnets, texts, AddHosts, texts')
  {
    var r := AllocateAddresses(p, subnets, texts);
    match r {
      case Ok(h) => texts' := texts + [Printed(text, h)];
      case Err(_) => texts' := texts;
    }
  }

  method CarveDevice(p: Parser, text: IpAddr -> string, subnets: seq<IpNet>, texts: seq<string>, prefix: nat)
      returns (texts': seq<string>)
    ensures TextStep(p, text, subnets, texts, Carve(prefix), texts')
  {
    var r := AllocateSubnet(p, subnets, texts, prefix);
    match r {
      case Some(b) => texts' := texts + [Show(text, b)];
      case None => texts' := texts;
    }
  }

  lemma TextsAppend(text: IpAddr -> string, live: seq<Lease>, l: Lease)
    ensures Texts(text, live + [l]) == Texts(text, live) + [Printed(text, Nets(l))]
  {
  }

  lemma TextsDelete(text: IpAddr -> string, live: seq<Lease>, i: nat)
    ensures i < |live| ==>
      Texts(text, live[..i] + live[i + 1..]) == Texts(text, live)[..i] + Texts(text, live)[i + 1..]
  {
  }

  lemma HostTextStep(p: Parser, text: IpAddr -> string, subnets: seq<IpNet>, live: seq<Lease>, texts': seq<string>)
      returns (live': seq<Lease>)
    requires Readable(p, text) && TextStep(p, text, subnets, Texts(text, live), AddHosts, texts')
    ensures HostStep(subnets, live, live') && texts' == Texts(text, live')
  {
    TextsReadBack(p, text, live);
    var texts := Texts(text, live);
    var r :| HostAllocation(subnets, AllParsed(p, texts), r)
      && texts' == (match r case Ok(h) => texts + [Printed(text, h)] case Err(_) => texts);
    live' := match r case Ok(h) => live + [Hosts(h)] case Err(_) => live;
    if r.Ok? {
      TextsAppend(text, live, Hosts(r.value));
    }
  }

  lemma CarveTextStep(p: Parser, text: IpAddr -> string, subnets: seq<IpNet>, live: seq<Lease>, prefix: nat,
                      texts': seq<string>) returns (live': seq<Lease>)
    requires Readable(p, text) && TextStep(p, text, subnets, Texts(text, live), Carve(prefix), texts')
    ensures CarveStep(subnets, live, prefix, live') && texts' == Texts(text, live')
  {
    TextsReadBack(p, text, live);
    var texts := Texts(text, live);
    var r :| CarveAllocation(subnets, AllParsed(p, texts), prefix, r)
      && texts' == (match r case Some(b) => texts + [Show(text, b)] case None => texts);
    live' := match r case Some(b) => live + [Carved(b)] case None => live;
    if r.Some? {
      TextsAppend(text, live, Carved(r.value));
      assert Shown(text, [r.value]) == [Show(text, r.value)];
    }
  }

  /** A step on strings is a step on what they hold. */
  lemma TextStepIsStep(p: Parser, text: IpAddr -> string, subnets: seq<IpNet>, live: seq<Lease>, op: Op,
                       texts': seq<string>) returns (live': seq<Lease>)
    requires Readable(p, text) && TextStep(p, text, subnets, Texts(text, live), op, texts')
    ensures Step(subnets, live, op, live') && texts' == Texts(text, live')
  {
    match op
    case AddHosts => live' := HostTextStep(p, text, subnets, live, texts');
    case Carve(prefix) => live' := CarveTextStep(p, text, subnets, live, prefix, texts');
    case Delete(i) =>
      live' := if i < |live| then live[..i] + live[i + 1..] else live;
      TextsDelete(text, live, i);
  }

  ghost predicate IsTextRun(p: Parser, text: IpAddr -> string, subnets: seq<IpNet>, ops: seq<Op>,
      states: seq<seq<string>>)
  {
    && |states| == |ops| + 1
    && states[0] == []
    && forall i :: 0 <= i < |ops| ==> TextStep(p, text, subnets, states[i], ops[i], states[i + 1])
  }

  /** Every run on strings prints a run on leases, so what is proved of those holds of the program's strings. */
  lemma {:induction false} TextRunIsRun(p: Parser, text: IpAddr -> string, subnets: seq<IpNet>, ops: seq<Op>,
                                        states: seq<seq<string>>) returns (leases: seq<seq<Lease>>)
    requires Readable(p, text) && IsTextRun(p, text, subnets, ops, states)
    ensures IsRun(subnets, ops, leases)
    ensures forall k :: 0 <= k < |states| ==> states[k] == Texts(text, leases[k])
  {
    if ops == [] {
      leases := [[]];
    } else {
      var n := |ops| - 1;
      leases := TextRunIsRun(p, text, subnets, ops[..n], states[..n + 1]);
      assert states[..n + 1][n] == states[n];
      var next := TextStepIsStep(p, text, subnets, leases[n], ops[n], states[n + 1]);
      RunExtends(subnets, ops, leases, next);
      leases := leases + [next];
    }
  }

  lemma RunExtends(subnets: seq<IpNet>, ops: seq<Op>, leases: seq<seq<Lease>>, next: seq<Lease>)
    requires ops != [] && IsRun(subnets, ops[..|ops| - 1], leases)
    requires Step(subnets, leases[|ops| - 1], ops[|ops| - 1], next)
    ensures IsRun(subnets, ops, leases + [next])
  {
    var n, longer := |ops| - 1, leases + [next];
    forall i | 0 <= i < |ops| ensures Step(subnets, longer[i], ops[i], longer[i + 1]) {
      if i < n {
        assert ops[..n][i] == ops[i];
        assert Step(subnets, leases[i], ops[..n][i], leases[i + 1]);
      }
    }
  }

  /** In every state of every run the stored address strings are pairwise different. */
  lemma StoredAddressesUnique(p: Parser, text: IpAddr -> string, subnets: seq<IpNet>, ops: seq<Op>,
                              states: seq<seq<string>>, k: nat, i: nat, j: nat)
    requires subnets != [] && Readable(p, text) && IsTextRun(p, text, subnets, ops, states)
    requires k < |states| && i < j < |states[k]|
    ensures states[k][i] != states[k][j]
  {
    var leases := TextRunIsRun(p, text, subnets, ops, states);
    RunsAreSafe(subnets, ops, leases, k);
    var live := leases[k];
    PrintedReadsBack(p, text, live[i]);
    PrintedReadsBack(p, text, live[j]);
    assert Proper(subnets, live[j]) && ListedApart(live[i], live[j]);
    ApartSpecsDiffer(live[i], live[j]);
  }

  lemma ApartSpecsDiffer(a: Lease, b: Lease)
    requires ListedApart(a, b) && Nets(b) != []
    ensures Spec(a) != Spec(b)
  {
    if |Nets(a)| == |Nets(b)| {
      assert Nets(a)[0] in Nets(a) && Nets(b)[0] in Nets(b);
      assert Spec(a)[0] != Spec(b)[0];
    }
  }
}
