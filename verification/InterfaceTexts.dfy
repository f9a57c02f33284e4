/** What the files say about the interface itself: its name and, in a keyfile, its numbered addresses by family. */
module InterfaceTexts {
  import opened BackendTypes
  import opened DesiredText
  import opened Ini
  import opened Sequences
  import opened Strings
  import opened TextBackends
  import opened Wrappers

  function NumberedKey(k: nat): string {
    "address" + Decimal(k + 1)
  }

  /** The section lists the addresses in order under numbered keys, and says by which method they are set. */
  ghost predicate SaysAddresses(entries: seq<Entry>, addresses: seq<string>, unused: string) {
    && (forall k :: 0 <= k < |addresses| ==> Get(entries, NumberedKey(k)) == Some(addresses[k]))
    && Get(entries, NumberedKey(|addresses|)) == None
    && Get(entries, "method") == Some(if addresses == [] then unused else "manual")
  }

  lemma {:induction false} GetMissing(entries: seq<Entry>, key: string)
    requires forall k :: 0 <= k < |entries| ==> entries[k].key != key
    ensures Get(entries, key) == None
  {
    if entries != [] {
      GetMissing(entries[1..], key);
    }
  }

  lemma {:induction false} GetAt(entries: seq<Entry>, k: nat)
    requires k < |entries| && forall j :: 0 <= j < k ==> entries[j].key != entries[k].key
    ensures Get(entries, entries[k].key) == Some(entries[k].value)
  {
    if k > 0 {
      GetAt(entries[1..], k - 1);
    }
  }

  lemma KeysDiffer(j: nat, k: nat)
    ensures j != k ==> NumberedKey(j) != NumberedKey(k)
    ensures NumberedKey(j) != "method"
  {
    NumberOfDecimal(j + 1);
    NumberOfDecimal(k + 1);
    assert NumberedKey(j)[7..] == Decimal(j + 1) && NumberedKey(k)[7..] == Decimal(k + 1);
    assert NumberedKey(j)[0] == 'a' && "method"[0] == 'm';
  }

  lemma FamilySays(header: string, tokens: seq<string>, unused: string)
    ensures SaysAddresses(FamilySection(header, tokens, unused).entries, tokens, unused)
  {
    var entries := FamilySection(header, tokens, unused).entries;
    var n := |tokens|;
    assert entries[n].key == "method";
    forall k | 0 <= k < n ensures entries[k] == Entry(NumberedKey(k), tokens[k]) {
    }
    forall k | 0 <= k < n ensures Get(entries, NumberedKey(k)) == Some(tokens[k]) {
      forall j | 0 <= j < k ensures entries[j].key != entries[k].key {
        KeysDiffer(j, k);
      }
      GetAt(entries, k);
    }
    forall k | 0 <= k < |entries| ensures entries[k].key != NumberedKey(n) {
      KeysDiffer(n, k);
    }
    GetMissing(entries, NumberedKey(n));
    forall k | 0 <= k < n ensures entries[k].key != "method" {
      KeysDiffer(k, k);
    }
    GetAt(entries, n);
  }

  lemma {:induction false} FindSkips(front: seq<Section>, rest: seq<Section>, header: string)
    requires forall k :: 0 <= k < |front| ==> front[k].header != header
    ensures Find(front + rest, header) == Find(rest, header)
  {
    if front == [] {
      assert front + rest == rest;
    } else {
      assert (front + rest)[1..] == front[1..] + rest;
      FindSkips(front[1..], rest, header);
    }
  }

  /** Which connection a keyfile sets up: one of this name, a WireGuard one, for the interface of this name. */
  ghost predicate SaysConnection(entries: seq<Entry>, name: string) {
    && Get(entries, "id") == Some(name) && Get(entries, "type") == Some("wireguard")
    && Get(entries, "interface-name") == Some(name)
  }

  /** Reading a keyfile finds the interface's name, and its addresses split by the colon, in order. */
  lemma KeyfileSaysInterface(iface: InterfaceSpec, peers: seq<PeerSpec>)
    requires Clean(iface, peers)
    ensures var sections := Read(Rendered(Keyfile, iface, peers), Spaced(Keyfile));
            && SaysConnection(Find(sections, "connection"), iface.name)
            && SaysAddresses(Find(sections, "ipv4"), Filter(Cidrs(iface.address), (a: string) => ':' !in a), "disabled")
            && SaysAddresses(Find(sections, "ipv6"), Filter(Cidrs(iface.address), (a: string) => ':' in a), "ignore")
  {
    HeadWritable(Keyfile, iface);
    TailWritable(Keyfile, iface);
    forall k | 0 <= k < |peers| ensures Writable(PeerSections(Keyfile, peers)[k]) {
      PeerWritable(Keyfile, peers[k]);
    }
    ReadsBack(Keyfile, iface, peers);
    FilterAgree(Cidrs(iface.address), (a: string) => (':' in a) == false, (a: string) => ':' !in a);
    FilterAgree(Cidrs(iface.address), (a: string) => (':' in a) == true, (a: string) => ':' in a);
    SectionsSay(iface, peers);
  }

  lemma SectionsSay(iface: InterfaceSpec, peers: seq<PeerSpec>)
    ensures var sections := AllSections(Keyfile, iface, peers);
            && SaysConnection(Find(sections, "connection"), iface.name)
            && SaysAddresses(Find(sections, "ipv4"), OfFamily(iface.address, false), "disabled")
            && SaysAddresses(Find(sections, "ipv6"), OfFamily(iface.address, true), "ignore")
  {
    HeadersDiffer(iface, peers);
    var v4 := FamilySection("ipv4", OfFamily(iface.address, false), "disabled");
    var v6 := FamilySection("ipv6", OfFamily(iface.address, true), "ignore");
    FamiliesFound(HeadSections(Keyfile, iface) + PeerSections(Keyfile, peers), v4, v6);
    FamilySays("ipv4", OfFamily(iface.address, false), "disabled");
    FamilySays("ipv6", OfFamily(iface.address, true), "ignore");
    NameFound(iface, PeerSections(Keyfile, peers), TailSections(Keyfile, iface));
  }

  lemma FamiliesFound(front: seq<Section>, v4: Section, v6: Section)
    requires forall k :: 0 <= k < |front| ==> front[k].header != "ipv4" && front[k].header != "ipv6"
    requires v4.header == "ipv4" && v6.header == "ipv6"
    ensures Find(front + [v4, v6], "ipv4") == v4.entries && Find(front + [v4, v6], "ipv6") == v6.entries
  {
    FindSkips(front, [v4, v6], "ipv4");
    FindSkips(front, [v4, v6], "ipv6");
    assert [v4, v6] == [v4] + [v6] && [v6] == [v6] + [] && "ipv4"[3] != "ipv6"[3];
    FindFirst(v4, [v6], "ipv4");
    FindFirst(v4, [v6], "ipv6");
    FindFirst(v6, [], "ipv6");
  }

  lemma NameFound(iface: InterfaceSpec, p: seq<Section>, t: seq<Section>)
    ensures SaysConnection(Find(HeadSections(Keyfile, iface) + p + t, "connection"), iface.name)
  {
    var h := HeadSections(Keyfile, iface);
    assert h + p + t == [h[0]] + ([h[1]] + p + t);
    FindFirst(h[0], [h[1]] + p + t, "connection");
    ConnectionSaid(iface.name);
  }

  lemma ConnectionSaid(name: string)
    ensures SaysConnection([Entry("id", name), Entry("type", "wireguard"), Entry("interface-name", name)], name)
  {
    var entries := [Entry("id", name), Entry("type", "wireguard"), Entry("interface-name", name)];
    assert |"id"| == 2 && |"type"| == 4 && |"interface-name"| == 14;
    GetAt(entries, 0);
    GetAt(entries, 1);
    GetAt(entries, 2);
  }

  /** Reading a systemd-networkd device file finds the interface's name and its kind. */
  lemma NetdevSaysInterface(iface: InterfaceSpec, peers: seq<PeerSpec>)
    requires Clean(iface, peers)
    ensures var entries := Find(Read(Rendered(Netdev, iface, peers), Spaced(Netdev)), "NetDev");
            Get(entries, "Name") == Some(iface.name) && Get(entries, "Kind") == Some("wireguard")
  {
    HeadWritable(Netdev, iface);
    TailWritable(Netdev, iface);
    forall k | 0 <= k < |peers| ensures Writable(PeerSections(Netdev, peers)[k]) {
      PeerWritable(Netdev, peers[k]);
    }
    ReadsBack(Netdev, iface, peers);
    NetdevFound(iface, PeerSections(Netdev, peers), TailSections(Netdev, iface));
  }

  lemma NetdevFound(iface: InterfaceSpec, p: seq<Section>, t: seq<Section>)
    ensures var entries := Find(HeadSections(Netdev, iface) + p + t, "NetDev");
            Get(entries, "Name") == Some(iface.name) && Get(entries, "Kind") == Some("wireguard")
  {
    var h := HeadSections(Netdev, iface);
    assert h + p + t == [h[0]] + ([h[1]] + p + t);
    FindFirst(h[0], [h[1]] + p + t, "NetDev");
    var entries := [Entry("Name", iface.name), Entry("Kind", "wireguard")];
    assert "Name"[0] == 'N' && "Kind"[0] == 'K';
    GetAt(entries, 0);
    GetAt(entries, 1);
  }

  lemma HeadersDiffer(iface: InterfaceSpec, peers: seq<PeerSpec>)
    ensures var front := HeadSections(Keyfile, iface) + PeerSections(Keyfile, peers);
            forall k :: 0 <= k < |front| ==> front[k].header != "ipv4" && front[k].header != "ipv6"
  {
    var front := HeadSections(Keyfile, iface) + PeerSections(Keyfile, peers);
    forall k | 0 <= k < |front| ensures front[k].header != "ipv4" && front[k].header != "ipv6" {
      assert front[k].header[0] == 'c' || front[k].header[0] == 'w';
      assert "ipv4"[0] == 'i' && "ipv6"[0] == 'i';
    }
  }
}
