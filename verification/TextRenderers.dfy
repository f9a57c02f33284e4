/** The three text renderers as the loops that build their files, proved against `Rendered`. */
module TextRenderers {
  import opened BackendTypes
  import opened Ini
  import opened Strings
  import opened TextBackends

  function Line(s: string, l: string): string {
    s + l + "\n"
  }

  function EntryText(s: string, key: string, value: string, spaced: bool): string {
    Line(s, EntryLine(Entry(key, value), spaced))
  }

  /** The text so far is `lines` followed by an open section. */
  ghost predicate Open(s: string, lines: seq<string>, header: string, entries: seq<Entry>, spaced: bool) {
    s == JoinLines(lines + SectionLines(header, entries, spaced))
  }

  lemma Opened(s: string, lines: seq<string>, header: string, spaced: bool)
    requires s == JoinLines(lines)
    ensures Open(Line(s, HeaderLine(header)), lines, header, [], spaced)
  {
    PushLine(lines, HeaderLine(header));
  }

  lemma Grown(s: string, lines: seq<string>, header: string, entries: seq<Entry>, key: string, value: string,
      spaced: bool)
    requires Open(s, lines, header, entries, spaced)
    ensures Open(EntryText(s, key, value, spaced), lines, header, entries + [Entry(key, value)], spaced)
  {
    var e := Entry(key, value);
    var before := SectionLines(header, entries, spaced);
    assert (entries + [e])[..|entries|] == entries;
    PushLine(lines + before, EntryLine(e, spaced));
    assert lines + before + [EntryLine(e, spaced)] == lines + (before + [EntryLine(e, spaced)]);
  }

  lemma ClosedBy(s: string, lines: seq<string>, section: Section, spaced: bool)
    requires Open(s, lines, section.header, section.entries, spaced)
    ensures Line(s, "") == JoinLines(lines + BlockLines(section, spaced, false))
  {
    var block := SectionLines(section.header, section.entries, spaced);
    PushLine(lines + block, "");
    assert lines + block + [""] == lines + (block + [""]);
  }

  lemma PrecededBy(s: string, lines: seq<string>, section: Section, spaced: bool)
    requires Open(s, lines + [""], section.header, section.entries, spaced)
    ensures s == JoinLines(lines + BlockLines(section, spaced, true))
  {
    var block := SectionLines(section.header, section.entries, spaced);
    assert lines + [""] + block == lines + ([""] + block);
  }

  lemma NextPeer(style: Style, peers: seq<PeerSpec>, i: nat)
    requires i < |peers|
    ensures PeerLines(style, peers[..i + 1])
         == PeerLines(style, peers[..i]) + BlockLines(PeerSection(style, peers[i]), Spaced(style), !style.Keyfile?)
  {
    var upTo := PeerSections(style, peers[..i + 1]);
    assert upTo[..i] == PeerSections(style, peers[..i]);
  }

  // ---- One peer ----

  method AddServerPeer(s: string, p: PeerSpec, ghost lines: seq<string>) returns (r: string)
    requires s == JoinLines(lines)
    ensures r == JoinLines(lines + BlockLines(PeerSection(Server, p), true, true))
  {
    ghost var es := [Entry("PublicKey", p.publicKey)];
    r := Line(s, "");
    PushLine(lines, "");
    Opened(r, lines + [""], "Peer", true);
    r := Line(r, HeaderLine("Peer"));
    Grown(r, lines + [""], "Peer", [], "PublicKey", p.publicKey, true);
    r := EntryText(r, "PublicKey", p.publicKey, true);
    assert [] + es == es;
    if p.presharedKey.Some? && p.presharedKey.value != "" {
      Grown(r, lines + [""], "Peer", es, "PresharedKey", p.presharedKey.value, true);
      r := EntryText(r, "PresharedKey", p.presharedKey.value, true);
    }
    es := es + PskEntries("PresharedKey", p);
    Grown(r, lines + [""], "Peer", es, "AllowedIPs", p.address, true);
    r := EntryText(r, "AllowedIPs", p.address, true);
    PrecededBy(r, lines, PeerSection(Server, p), true);
  }

  method AddNetdevPeer(s: string, p: PeerSpec, ghost lines: seq<string>) returns (r: string)
    requires s == JoinLines(lines)
    ensures r == JoinLines(lines + BlockLines(PeerSection(Netdev, p), false, true))
  {
    ghost var es := [Entry("PublicKey", p.publicKey)];
    r := Line(s, "");
    PushLine(lines, "");
    Opened(r, lines + [""], "WireGuardPeer", false);
    r := Line(r, HeaderLine("WireGuardPeer"));
    Grown(r, lines + [""], "WireGuardPeer", [], "PublicKey", p.publicKey, false);
    r := EntryText(r, "PublicKey", p.publicKey, false);
    assert [] + es == es;
    if p.presharedKey.Some? && p.presharedKey.value != "" {
      Grown(r, lines + [""], "WireGuardPeer", es, "PresharedKey", p.presharedKey.value, false);
      r := EntryText(r, "PresharedKey", p.presharedKey.value, false);
    }
    es := es + PskEntries("PresharedKey", p);
    var allowed := JoinWith(Cidrs(p.address), ',');
    Grown(r, lines + [""], "WireGuardPeer", es, "AllowedIPs", allowed, false);
    r := EntryText(r, "AllowedIPs", allowed, false);
    PrecededBy(r, lines, PeerSection(Netdev, p), false);
  }

  method AddKeyfilePeer(s: string, p: PeerSpec, ghost lines: seq<string>) returns (r: string)
    requires s == JoinLines(lines)
    ensures r == JoinLines(lines + BlockLines(PeerSection(Keyfile, p), false, false))
  {
    var header := PEER_PREFIX + p.publicKey;
    Opened(s, lines, header, false);
    r := Line(s, HeaderLine(header));
    var allowed := JoinWith(Cidrs(p.address), ';') + ";";
    ghost var es := [Entry("allowed-ips", allowed)];
    Grown(r, lines, header, [], "allowed-ips", allowed, false);
    r := EntryText(r, "allowed-ips", allowed, false);
    assert [] + es == es;
    if p.presharedKey.Some? && p.presharedKey.value != "" {
      Grown(r, lines, header, es, "preshared-key", p.presharedKey.value, false);
      r := EntryText(r, "preshared-key", p.presharedKey.value, false);
      es := es + PskEntries("preshared-key", p);
      Grown(r, lines, header, es, "preshared-key-flags", "0", false);
      r := EntryText(r, "preshared-key-flags", "0", false);
      es := es + [Entry("preshared-key-flags", "0")];
    }
    assert es == PeerSection(Keyfile, p).entries;
    ClosedBy(r, lines, PeerSection(Keyfile, p), false);
    r := Line(r, "");
  }

  // ---- The files ----

  /** The two lines of the section that holds the key and the port. */
  method AddPair(s: string, header: string, a: Entry, b: Entry, spaced: bool, ghost lines: seq<string>)
      returns (r: string)
    requires s == JoinLines(lines)
    ensures Open(r, lines, header, [a, b], spaced)
  {
    Opened(s, lines, header, spaced);
    r := Line(s, HeaderLine(header));
    Grown(r, lines, header, [], a.key, a.value, spaced);
    r := EntryText(r, a.key, a.value, spaced);
    Grown(r, lines, header, [] + [a], b.key, b.value, spaced);
    r := EntryText(r, b.key, b.value, spaced);
  }

  lemma StartPeers(style: Style, peers: seq<PeerSpec>, head: seq<string>)
    ensures head + PeerLines(style, peers[..0]) == head
  {
  }

  lemma MorePeers(style: Style, peers: seq<PeerSpec>, i: nat, head: seq<string>)
    requires i < |peers|
    ensures head + PeerLines(style, peers[..i + 1])
         == head + PeerLines(style, peers[..i])
            + BlockLines(PeerSection(style, peers[i]), Spaced(style), !style.Keyfile?)
  {
    NextPeer(style, peers, i);
    Regroup(head, PeerLines(style, peers[..i]),
        BlockLines(PeerSection(style, peers[i]), Spaced(style), !style.Keyfile?));
  }

  lemma Regroup(a: seq<string>, b: seq<string>, c: seq<string>)
    ensures a + (b + c) == a + b + c
  {
  }

  lemma NoTail(a: seq<string>, b: seq<string>)
    ensures a + b + [] == a + b && [] + a == a
  {
  }

  method RenderServerConfig(iface: InterfaceSpec, peers: seq<PeerSpec>) returns (s: string)
    ensures s == Rendered(Server, iface, peers)
  {
    ghost var head := HeadLines(Server, iface);
    s := AddPair("", "Interface", Entry("ListenPort", Decimal(iface.listenPort)),
        Entry("PrivateKey", iface.privateKey), true, []);
    NoTail(head, []);
    StartPeers(Server, peers, head);
    for i := 0 to |peers|
      invariant s == JoinLines(head + PeerLines(Server, peers[..i]))
    {
      s := AddServerPeer(s, peers[i], head + PeerLines(Server, peers[..i]));
      MorePeers(Server, peers, i, head);
    }
    assert peers[..|peers|] == peers;
    NoTail(head, PeerLines(Server, peers));
  }

  method RenderNetdev(iface: InterfaceSpec, peers: seq<PeerSpec>) returns (s: string)
    ensures s == Rendered(Netdev, iface, peers)
  {
    ghost var head := HeadLines(Netdev, iface);
    ghost var h := HeadSections(Netdev, iface);
    s := AddPair("", "NetDev", Entry("Name", iface.name), Entry("Kind", "wireguard"), false, []);
    ClosedBy(s, [], h[0], false);
    s := Line(s, "");
    NoTail(BlockLines(h[0], false, false), []);
    s := AddPair(s, "WireGuard", Entry("PrivateKey", iface.privateKey),
        Entry("ListenPort", Decimal(iface.listenPort)), false,
                 BlockLines(h[0], false, false));
    StartPeers(Netdev, peers, head);
    for i := 0 to |peers|
      invariant s == JoinLines(head + PeerLines(Netdev, peers[..i]))
    {
      s := AddNetdevPeer(s, peers[i], head + PeerLines(Netdev, peers[..i]));
      MorePeers(Netdev, peers, i, head);
    }
    assert peers[..|peers|] == peers;
    NoTail(head, PeerLines(Netdev, peers));
  }

  lemma NextAddress(tokens: seq<string>, i: nat)
    requires i < |tokens|
    ensures AddressEntries(tokens[..i + 1])
        == AddressEntries(tokens[..i]) + [Entry("address" + Decimal(i + 1), tokens[i])]
  {
  }

  /** One address section: numbered addresses, or the method for a family without any. */
  method AddFamily(s: string, header: string, tokens: seq<string>, unused: string, ghost lines: seq<string>)
      returns (r: string)
    requires s == JoinLines(lines)
    ensures Open(r, lines, header, FamilySection(header, tokens, unused).entries, false)
  {
    Opened(s, lines, header, false);
    r := Line(s, HeaderLine(header));
    if tokens == [] {
      Grown(r, lines, header, [], "method", unused, false);
      r := EntryText(r, "method", unused, false);
      assert [] + [Entry("method", unused)] == [Entry("method", unused)];
    } else {
      assert AddressEntries(tokens[..0]) == [];
      for i := 0 to |tokens|
        invariant Open(r, lines, header, AddressEntries(tokens[..i]), false)
      {
        Grown(r, lines, header, AddressEntries(tokens[..i]), "address" + Decimal(i + 1), tokens[i], false);
        r := EntryText(r, "address" + Decimal(i + 1), tokens[i], false);
        NextAddress(tokens, i);
      }
      assert tokens[..|tokens|] == tokens;
      Grown(r, lines, header, AddressEntries(tokens), "method", "manual", false);
      r := EntryText(r, "method", "manual", false);
    }
  }

  /** `[connection]` and `[wireguard]`, each with a blank line after it. */
  method AddKeyfileHead(iface: InterfaceSpec) returns (s: string)
    ensures s == JoinLines(HeadLines(Keyfile, iface))
  {
    ghost var h := HeadSections(Keyfile, iface);
    s := AddPair("", "connection", Entry("id", iface.name), Entry("type", "wireguard"), false, []);
    Grown(s, [], "connection", [Entry("id", iface.name), Entry("type", "wireguard")], "interface-name",
        iface.name, false);
    s := EntryText(s, "interface-name", iface.name, false);
    assert [Entry("id", iface.name), Entry("type", "wireguard")] + [Entry("interface-name", iface.name)]
        == h[0].entries;
    ClosedBy(s, [], h[0], false);
    s := Line(s, "");
    NoTail(BlockLines(h[0], false, false), []);
    s := AddPair(s, "wireguard", Entry("private-key", iface.privateKey),
        Entry("listen-port", Decimal(iface.listenPort)), false,
                 BlockLines(h[0], false, false));
    ClosedBy(s, BlockLines(h[0], false, false), h[1], false);
    s := Line(s, "");
  }

  /** `[ipv4]`, a blank line and `[ipv6]`. */
  method AddKeyfileTail(s: string, iface: InterfaceSpec, ghost lines: seq<string>) returns (r: string)
    requires s == JoinLines(lines)
    ensures r == JoinLines(lines + TailLines(Keyfile, iface))
  {
    ghost var t := TailSections(Keyfile, iface);
    var v4, v6 := OfFamily(iface.address, false), OfFamily(iface.address, true);
    r := AddFamily(s, "ipv4", v4, "disabled", lines);
    ClosedBy(r, lines, t[0], false);
    r := Line(r, "");
    r := AddFamily(r, "ipv6", v6, "ignore", lines + BlockLines(t[0], false, false));
    Regroup(lines, BlockLines(t[0], false, false), SectionLines(t[1].header, t[1].entries, false));
  }

  method RenderKeyfile(iface: InterfaceSpec, peers: seq<PeerSpec>) returns (s: string)
    ensures s == Rendered(Keyfile, iface, peers)
  {
    ghost var head := HeadLines(Keyfile, iface);
    s := AddKeyfileHead(iface);
    StartPeers(Keyfile, peers, head);
    for i := 0 to |peers|
      invariant s == JoinLines(head + PeerLines(Keyfile, peers[..i]))
    {
      s := AddKeyfilePeer(s, peers[i], head + PeerLines(Keyfile, peers[..i]));
      MorePeers(Keyfile, peers, i, head);
    }
    assert peers[..|peers|] == peers;
    s := AddKeyfileTail(s, iface, head + PeerLines(Keyfile, peers));
  }
}
