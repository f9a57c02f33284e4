/**
 The three backends that hand their desired state over as text: `wg` configuration,
 systemd-networkd device file and NetworkManager keyfile.
 */
module TextBackends {
  import opened BackendTypes
  import opened Ini
  import opened Sequences
  import opened Strings
  import opened Wrappers

  datatype Style = Server | Netdev | Keyfile

  function JoinWith(tokens: seq<string>, sep: char): string {
    if tokens == [] then ""
    else if |tokens| == 1 then tokens[0]
    else JoinWith(tokens[..|tokens| - 1], sep) + [sep] + tokens[|tokens| - 1]
  }

  /** An empty preshared key counts as none. */
  function KnownPsk(p: PeerSpec): Option<string> {
    if p.presharedKey.Some? && p.presharedKey.value != "" then p.presharedKey else None
  }

  function PskEntries(key: string, p: PeerSpec): seq<Entry> {
    match KnownPsk(p) case Some(k) => [Entry(key, k)] case None => []
  }

  // ---- What is written ----

  const PEER_PREFIX := "wireguard-peer."

  function PeerSection(style: Style, p: PeerSpec): Section {
    match style
    case Server =>
      Section("Peer", [Entry("PublicKey", p.publicKey)] + PskEntries("PresharedKey", p)
          + [Entry("AllowedIPs", p.address)])
    case Netdev =>
      Section("WireGuardPeer", [Entry("PublicKey", p.publicKey)] + PskEntries("PresharedKey", p)
        + [Entry("AllowedIPs", JoinWith(Cidrs(p.address), ','))])
    case Keyfile =>
      Section(PEER_PREFIX + p.publicKey, [Entry("allowed-ips", JoinWith(Cidrs(p.address), ';') + ";")]
        + PskEntries("preshared-key", p) + (if KnownPsk(p).Some? then [Entry("preshared-key-flags", "0")] else []))
  }

  function HeadSections(style: Style, iface: InterfaceSpec): seq<Section> {
    var key, port := iface.privateKey, Decimal(iface.listenPort);
    match style
    case Server => [Section("Interface", [Entry("ListenPort", port), Entry("PrivateKey", key)])]
    case Netdev => [Section("NetDev", [Entry("Name", iface.name), Entry("Kind", "wireguard")]),
                    Section("WireGuard", [Entry("PrivateKey", key), Entry("ListenPort", port)])]
    case Keyfile => [Section("connection",
        [Entry("id", iface.name), Entry("type", "wireguard"), Entry("interface-name", iface.name)]),
                     Section("wireguard", [Entry("private-key", key), Entry("listen-port", port)])]
  }

  function OfFamily(address: string, v6: bool): seq<string> {
    Filter(Cidrs(address), (a: string) => (':' in a) == v6)
  }

  function AddressEntries(tokens: seq<string>): seq<Entry> {
    seq(|tokens|, i requires 0 <= i < |tokens| => Entry("address" + Decimal(i + 1), tokens[i]))
  }

  function FamilySection(header: string, tokens: seq<string>, unused: string): Section {
    Section(header, if tokens == [] then [Entry("method", unused)]
        else AddressEntries(tokens) + [Entry("method", "manual")])
  }

  function TailSections(style: Style, iface: InterfaceSpec): seq<Section> {
    if style.Keyfile?
    then [FamilySection("ipv4", OfFamily(iface.address, false), "disabled"),
          FamilySection("ipv6", OfFamily(iface.address, true), "ignore")]
    else []
  }

  function Spaced(style: Style): bool {
    style.Server?
  }

  /** A section and a blank line before or after it. */
  function BlockLines(s: Section, spaced: bool, blankFirst: bool): seq<string> {
    if blankFirst then [""] + SectionLines(s.header, s.entries, spaced)
    else SectionLines(s.header, s.entries, spaced) + [""]
  }

  function Blocks(sections: seq<Section>, spaced: bool, blankFirst: bool): seq<string> {
    if sections == [] then []
    else
      Blocks(sections[..|sections| - 1], spaced, blankFirst) +
      BlockLines(sections[|sections| - 1], spaced, blankFirst)
  }

  function PeerSections(style: Style, peers: seq<PeerSpec>): (r: seq<Section>)
    ensures |r| == |peers| && forall k :: 0 <= k < |r| ==> r[k] == PeerSection(style, peers[k])
  {
    seq(|peers|, k requires 0 <= k < |peers| => PeerSection(style, peers[k]))
  }

  /** The sections of each format in file order. */
  function AllSections(style: Style, iface: InterfaceSpec, peers: seq<PeerSpec>): seq<Section> {
    HeadSections(style, iface) + PeerSections(style, peers) + TailSections(style, iface)
  }

  /** The lines before the peers: no blank line before the first section. */
  function HeadLines(style: Style, iface: InterfaceSpec): seq<string> {
    var h := HeadSections(style, iface);
    match style
    case Server => SectionLines(h[0].header, h[0].entries, true)
    case Netdev => BlockLines(h[0], false, false) + SectionLines(h[1].header, h[1].entries, false)
    case Keyfile => BlockLines(h[0], false, false) + BlockLines(h[1], false, false)
  }

  function PeerLines(style: Style, peers: seq<PeerSpec>): seq<string> {
    Blocks(PeerSections(style, peers), Spaced(style), !style.Keyfile?)
  }

  function TailLines(style: Style, iface: InterfaceSpec): seq<string> {
    if style.Keyfile?
    then var t := TailSections(style, iface);
         BlockLines(t[0], false, false) + SectionLines(t[1].header, t[1].entries, false)
    else []
  }

  function Rendered(style: Style, iface: InterfaceSpec, peers: seq<PeerSpec>): string {
    JoinLines(HeadLines(style, iface) + PeerLines(style, peers) + TailLines(style, iface))
  }

  // ---- Reading back ----

  ghost predicate AllWritable(sections: seq<Section>) {
    forall k :: 0 <= k < |sections| ==> Writable(sections[k])
  }

  ghost predicate AllOneLine(lines: seq<string>) {
    forall k :: 0 <= k < |lines| ==> OneLine(lines[k])
  }

  lemma BlockReadsBack(before: seq<Section>, s: Section, spaced: bool, blankFirst: bool)
    requires Writable(s)
    ensures AddLines(before, BlockLines(s, spaced, blankFirst), spaced) == before + [s]
    ensures AllOneLine(BlockLines(s, spaced, blankFirst))
  {
    var lines := SectionLines(s.header, s.entries, spaced);
    LastReadsBack(before, s, spaced);
    if blankFirst {
      BlankBefore(before, lines, spaced);
    } else {
      BlankAfter(before, lines, spaced);
    }
  }

  lemma BlankBefore(before: seq<Section>, lines: seq<string>, spaced: bool)
    requires AllOneLine(lines)
    ensures AddLines(before, [""] + lines, spaced) == AddLines(before, lines, spaced) && AllOneLine([""] + lines)
  {
    AddLinesConcat(before, [""], lines, spaced);
    BlankSkipped(before, spaced);
  }

  lemma BlankAfter(before: seq<Section>, lines: seq<string>, spaced: bool)
    requires AllOneLine(lines)
    ensures AddLines(before, lines + [""], spaced) == AddLines(before, lines, spaced) && AllOneLine(lines + [""])
  {
    AddLinesConcat(before, lines, [""], spaced);
    BlankSkipped(AddLines(before, lines, spaced), spaced);
  }

  lemma Follow(before: seq<Section>, a: seq<string>, b: seq<string>, p: seq<Section>, q: seq<Section>,
               spaced: bool)
    requires AddLines(before, a, spaced) == before + p && AddLines(before + p, b, spaced) == before + p + q
    requires AllOneLine(a) && AllOneLine(b)
    ensures AddLines(before, a + b, spaced) == before + (p + q) && AllOneLine(a + b)
  {
    AddLinesConcat(before, a, b, spaced);
    Associative(before, p, q);
  }

  lemma Associative(a: seq<Section>, b: seq<Section>, c: seq<Section>)
    ensures a + b + c == a + (b + c)
  {
  }

  lemma {:induction false} BlocksReadBack(before: seq<Section>, sections: seq<Section>, spaced: bool, blankFirst: bool)
    requires AllWritable(sections)
    ensures AddLines(before, Blocks(sections, spaced, blankFirst), spaced) == before + sections
    ensures AllOneLine(Blocks(sections, spaced, blankFirst))
  {
    if sections == [] {
      assert before + sections == before;
    } else {
      var init, s := sections[..|sections| - 1], sections[|sections| - 1];
      BlocksReadBack(before, init, spaced, blankFirst);
      BlockReadsBack(before + init, s, spaced, blankFirst);
      Follow(before, Blocks(init, spaced, blankFirst), BlockLines(s, spaced, blankFirst), init, [s], spaced);
      assert sections == init + [s];
    }
  }

  lemma LastReadsBack(before: seq<Section>, s: Section, spaced: bool)
    requires Writable(s)
    ensures AddLines(before, SectionLines(s.header, s.entries, spaced), spaced) == before + [s]
    ensures AllOneLine(SectionLines(s.header, s.entries, spaced))
  {
    SectionReadsBack(before, s.header, s.entries, spaced);
    SectionLinesOneLine(s.header, s.entries, spaced);
  }

  lemma HeadReadsBack(style: Style, iface: InterfaceSpec)
    requires AllWritable(HeadSections(style, iface))
    ensures AddLines([], HeadLines(style, iface), Spaced(style)) == [] + HeadSections(style, iface)
    ensures AllOneLine(HeadLines(style, iface))
  {
    var h := HeadSections(style, iface);
    match style
    case Server =>
      LastReadsBack([], h[0], true);
    case Netdev =>
      BlockReadsBack([], h[0], false, false);
      LastReadsBack([] + [h[0]], h[1], false);
      Follow([], BlockLines(h[0], false, false), SectionLines(h[1].header, h[1].entries, false), [h[0]], [h[1]], false);
    case Keyfile =>
      BlockReadsBack([], h[0], false, false);
      BlockReadsBack([] + [h[0]], h[1], false, false);
      Follow([], BlockLines(h[0], false, false), BlockLines(h[1], false, false), [h[0]], [h[1]], false);
  }

  lemma TailReadsBack(before: seq<Section>, style: Style, iface: InterfaceSpec)
    requires AllWritable(TailSections(style, iface))
    ensures AddLines(before, TailLines(style, iface), Spaced(style)) == before + TailSections(style, iface)
    ensures AllOneLine(TailLines(style, iface))
  {
    if style.Keyfile? {
      var t := TailSections(style, iface);
      BlockReadsBack(before, t[0], false, false);
      LastReadsBack(before + [t[0]], t[1], false);
      Follow(before, BlockLines(t[0], false, false), SectionLines(t[1].header, t[1].entries, false), [t[0]],
          [t[1]], false);
    }
  }

  /** Each rendering reads back as its sections, in order. */
  lemma ReadsBack(style: Style, iface: InterfaceSpec, peers: seq<PeerSpec>)
    requires AllWritable(HeadSections(style, iface))
    requires AllWritable(PeerSections(style, peers))
    requires AllWritable(TailSections(style, iface))
    ensures Read(Rendered(style, iface, peers), Spaced(style)) == AllSections(style, iface, peers)
  {
    HeadReadsBack(style, iface);
    BlocksReadBack([] + HeadSections(style, iface), PeerSections(style, peers), Spaced(style), !style.Keyfile?);
    TailReadsBack([] + HeadSections(style, iface) + PeerSections(style, peers), style, iface);
    PartsReadBack(HeadLines(style, iface), PeerLines(style, peers), TailLines(style, iface),
                  HeadSections(style, iface), PeerSections(style, peers), TailSections(style, iface), Spaced(style));
  }

  lemma PartsReadBack(hl: seq<string>, pl: seq<string>, tl: seq<string>, h: seq<Section>, p: seq<Section>,
      t: seq<Section>,
                      spaced: bool)
    requires AllOneLine(hl) && AllOneLine(pl) && AllOneLine(tl)
    requires AddLines([], hl, spaced) == [] + h
    requires AddLines([] + h, pl, spaced) == [] + h + p
    requires AddLines([] + h + p, tl, spaced) == [] + h + p + t
    ensures Read(JoinLines(hl + pl + tl), spaced) == h + p + t
  {
    Follow([], hl, pl, h, p, spaced);
    Associative([], h, p);
    Follow([], hl + pl, tl, h + p, t, spaced);
    ReadWhole(hl + pl + tl, h + p + t, spaced);
  }

  lemma ReadWhole(lines: seq<string>, all: seq<Section>, spaced: bool)
    requires AllOneLine(lines) && AddLines([], lines, spaced) == [] + all
    ensures Read(JoinLines(lines), spaced) == all
  {
    ReadsByLines(lines, spaced);
    assert [] + all == all;
  }
}
