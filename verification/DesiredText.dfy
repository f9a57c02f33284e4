/**
 What a reader recovers from each text format: the private key, the port and the ordered peers.
 The three formats carry the same desired state.
 */
module DesiredText {
  import opened BackendTypes
  import opened Ini
  import opened Strings
  import opened TextBackends
  import opened Wrappers
  import Sequences

  datatype PeerText = PeerText(publicKey: Option<string>, allowed: seq<string>, presharedKey: Option<string>)
  datatype Doc = Doc(privateKey: Option<string>, port: Option<nat>, peers: seq<PeerText>)

  // ---- A reader for each format ----

  function Get(entries: seq<Entry>, key: string): Option<string> {
    if entries == [] then None
    else if entries[0].key == key then Some(entries[0].value)
    else Get(entries[1..], key)
  }

  function Number(s: string): Option<nat> {
    if s == "" || !('0' <= s[|s| - 1] <= '9') then None
    else
      var d := s[|s| - 1] as int - '0' as int;
      if |s| == 1 then Some(d)
      else
        match Number(s[..|s| - 1])
        case Some(n) => Some(10 * n + d)
        case None => None
  }

  function Find(sections: seq<Section>, header: string): seq<Entry> {
    if sections == [] then []
    else if sections[0].header == header then sections[0].entries
    else Find(sections[1..], header)
  }

  function InterfaceHeader(style: Style): string {
    match style case Server => "Interface" case Netdev => "WireGuard" case Keyfile => "wireguard"
  }

  function PrivateKeyName(style: Style): string {
    if style.Keyfile? then "private-key" else "PrivateKey"
  }

  function PortName(style: Style): string {
    if style.Keyfile? then "listen-port" else "ListenPort"
  }

  predicate IsPeer(style: Style, header: string) {
    match style
    case Server => header == "Peer"
    case Netdev => header == "WireGuardPeer"
    case Keyfile => PEER_PREFIX <= header
  }

  /** The separators a list of addresses may use. */
  function Separators(style: Style): set<char> {
    match style case Server => {',', ' '} case Netdev => {','} case Keyfile => {';'}
  }

  function Listed(value: Option<string>, seps: set<char>): seq<string> {
    match value case Some(v) => NonEmptyTrimmed(Split(v, seps)) case None => []
  }

  function PeerOf(style: Style, s: Section): PeerText
    requires IsPeer(style, s.header)
  {
    var key := if style.Keyfile? then Some(s.header[|PEER_PREFIX|..]) else Get(s.entries, "PublicKey");
    var psk := Get(s.entries, if style.Keyfile? then "preshared-key" else "PresharedKey");
    var allowed := Get(s.entries, if style.Keyfile? then "allowed-ips" else "AllowedIPs");
    PeerText(key, Listed(allowed, Separators(style)), psk)
  }

  function PeersOf(style: Style, sections: seq<Section>): seq<PeerText> {
    if sections == [] then [] else PeerIn(style, sections[0]) + PeersOf(style, sections[1..])
  }

  function PeerIn(style: Style, s: Section): seq<PeerText> {
    if IsPeer(style, s.header) then [PeerOf(style, s)] else []
  }

  function Recover(style: Style, sections: seq<Section>): Doc {
    var entries := Find(sections, InterfaceHeader(style));
    var port := match Get(entries, PortName(style)) case Some(v) => Number(v) case None => None;
    Doc(Get(entries, PrivateKeyName(style)), port, PeersOf(style, sections))
  }

  // ---- The desired state itself ----

  function PeerTextOf(p: PeerSpec): PeerText {
    PeerText(Some(p.publicKey), Cidrs(p.address), KnownPsk(p))
  }

  function PeerTexts(peers: seq<PeerSpec>): seq<PeerText> {
    seq(|peers|, k requires 0 <= k < |peers| => PeerTextOf(peers[k]))
  }

  function DocOf(iface: InterfaceSpec, peers: seq<PeerSpec>): Doc {
    Doc(Some(iface.privateKey), Some(iface.listenPort), PeerTexts(peers))
  }

  /** Fields without line breaks. */
  ghost predicate CleanPeer(p: PeerSpec) {
    && OneLine(p.publicKey) && OneLine(p.address)
    && (p.presharedKey.Some? ==> OneLine(p.presharedKey.value))
  }

  /** A keyfile separates addresses with `;`, which the other two formats do not. */
  predicate Carried(style: Style, p: PeerSpec) {
    style.Keyfile? ==> ';' !in p.address
  }

  ghost predicate Clean(iface: InterfaceSpec, peers: seq<PeerSpec>) {
    && OneLine(iface.name) && OneLine(iface.privateKey) && OneLine(iface.address)
    && forall k :: 0 <= k < |peers| ==> CleanPeer(peers[k])
  }

  // ---- Tokens ----

  /** Tokens that a separated list can carry. */
  ghost predicate Tokens(ts: seq<string>, excluded: set<char>) {
    forall k :: 0 <= k < |ts| ==> ts[k] != "" && Trim(ts[k]) == ts[k] && Free(ts[k], excluded)
  }

  lemma TrimTwice(s: string)
    ensures Trim(Trim(s)) == Trim(s)
  {
    var l := TrimLeft(s);
    var t := TrimRight(l);
    if t != "" {
      assert t[0] == l[0];
    }
  }

  lemma {:induction false} TrimLeftFree(s: string, excluded: set<char>)
    requires Free(s, excluded)
    ensures Free(TrimLeft(s), excluded)
  {
    if s != "" && IsSpace(s[0]) {
      TrimLeftFree(s[1..], excluded);
    }
  }

  lemma {:induction false} TrimmedTokens(pieces: seq<string>, excluded: set<char>)
    requires forall k :: 0 <= k < |pieces| ==> Free(pieces[k], excluded)
    ensures Tokens(NonEmptyTrimmed(pieces), excluded)
  {
    if pieces != [] {
      TrimmedTokens(pieces[1..], excluded);
      TrimTwice(pieces[0]);
      TrimLeftFree(pieces[0], excluded);
    }
  }

  lemma {:induction false} PiecesFree(s: string, seps: set<char>, excluded: set<char>)
    requires Free(s, excluded)
    ensures forall k :: 0 <= k < |Split(s, seps)| ==> Free(Split(s, seps)[k], excluded)
  {
    if s != "" {
      PiecesFree(s[1..], seps, excluded);
      var rest := Split(s[1..], seps);
      assert Free(rest[0], excluded);
      assert Free([s[0]] + rest[0], excluded);
    }
  }

  /** The tokens of an address specification hold no separator and nothing the specification did not. */
  lemma CidrTokens(spec: string, excluded: set<char>)
    requires Free(spec, excluded)
    ensures Tokens(Cidrs(spec), excluded) && Tokens(Cidrs(spec), {',', ' '})
  {
    var pieces := Split(spec, {',', ' '});
    PiecesFree(spec, {',', ' '}, excluded);
    TrimmedTokens(pieces, excluded);
    TrimmedTokens(pieces, {',', ' '});
  }

  lemma {:induction false} TokensKept(ts: seq<string>)
    requires Tokens(ts, {})
    ensures NonEmptyTrimmed(ts) == ts && NonEmptyTrimmed(ts + [""]) == ts
  {
    if ts == [] {
      assert ts + [""] == [""];
    } else {
      TokensKept(ts[1..]);
      assert (ts + [""])[1..] == ts[1..] + [""];
      assert [ts[0]] + ts[1..] == ts;
    }
  }

  lemma {:induction false} JoinSplits(ts: seq<string>, sep: char)
    requires ts != [] && Tokens(ts, {sep})
    ensures Split(JoinWith(ts, sep), {sep}) == ts
  {
    if |ts| == 1 {
      SplitFree(ts[0], {sep});
    } else {
      var init, last := ts[..|ts| - 1], ts[|ts| - 1];
      JoinSplits(init, sep);
      SplitAppend(JoinWith(init, sep), last, {sep}, sep);
      assert ts == init + [last];
    }
  }

  /** A joined list splits back into its tokens. */
  lemma ListReadsBack(ts: seq<string>, sep: char)
    requires Tokens(ts, {sep})
    ensures NonEmptyTrimmed(Split(JoinWith(ts, sep), {sep})) == ts
  {
    TokensKept(ts);
    if ts == [] {
      TokensKept([]);
      assert [] + [""] == [""];
    } else {
      JoinSplits(ts, sep);
    }
  }

  /** The same with a closing separator. */
  lemma ClosedListReadsBack(ts: seq<string>, sep: char)
    requires Tokens(ts, {sep})
    ensures NonEmptyTrimmed(Split(JoinWith(ts, sep) + [sep], {sep})) == ts
  {
    TokensKept(ts);
    var joined := JoinWith(ts, sep);
    assert joined + [sep] + "" == joined + [sep];
    SplitAppend(joined, "", {sep}, sep);
    if ts == [] {
      assert NonEmptyTrimmed(["", ""]) == [];
    } else {
      JoinSplits(ts, sep);
    }
  }

  lemma {:induction false} JoinedOneLine(ts: seq<string>, sep: char)
    requires sep != '\n' && Tokens(ts, {'\n'})
    ensures OneLine(JoinWith(ts, sep))
  {
    if ts != [] {
      if |ts| > 1 {
        JoinedOneLine(ts[..|ts| - 1], sep);
      }
    }
  }

  /** A character that no separator or white space is stays in some token. */
  lemma {:induction false} TrimKeeps(s: string, c: char)
    requires c in s && !IsSpace(c)
    ensures c in Trim(s)
  {
    TrimLeftKeeps(s, c);
    TrimRightKeeps(TrimLeft(s), c);
  }

  lemma {:induction false} TrimLeftKeeps(s: string, c: char)
    requires c in s && !IsSpace(c)
    ensures c in TrimLeft(s)
  {
    if IsSpace(s[0]) {
      assert s == [s[0]] + s[1..];
      TrimLeftKeeps(s[1..], c);
    }
  }

  lemma {:induction false} TrimRightKeeps(s: string, c: char)
    requires c in s && !IsSpace(c)
    ensures c in TrimRight(s)
  {
    if IsSpace(s[|s| - 1]) {
      assert s == s[..|s| - 1] + [s[|s| - 1]];
      TrimRightKeeps(s[..|s| - 1], c);
    }
  }

  lemma {:induction false} SplitKeeps(s: string, seps: set<char>, c: char) returns (k: nat)
    requires c in s && c !in seps
    ensures k < |Split(s, seps)| && c in Split(s, seps)[k]
  {
    var rest := Split(s[1..], seps);
    if s[0] == c {
      k := 0;
    } else {
      assert s == [s[0]] + s[1..];
      k := SplitKeeps(s[1..], seps, c);
      if s[0] in seps {
        k := k + 1;
      }
    }
  }

  lemma {:induction false} TrimmedKeeps(pieces: seq<string>, k: nat, c: char) returns (n: nat)
    requires k < |pieces| && c in pieces[k] && !IsSpace(c)
    ensures n < |NonEmptyTrimmed(pieces)| && c in NonEmptyTrimmed(pieces)[n]
  {
    if k == 0 {
      TrimKeeps(pieces[0], c);
      n := 0;
    } else {
      n := TrimmedKeeps(pieces[1..], k - 1, c);
      if Trim(pieces[0]) != "" {
        n := n + 1;
      }
    }
  }

  // ---- Numbers ----

  lemma {:induction false} NumberOfDecimal(n: nat)
    ensures Number(Decimal(n)) == Some(n)
  {
    if n >= 10 {
      NumberOfDecimal(n / 10);
      var s := Decimal(n / 10) + [Digit(n % 10)];
      assert s[..|s| - 1] == Decimal(n / 10);
    }
  }

  // ---- Peers ----

  lemma GetFirst(e: Entry, rest: seq<Entry>, key: string)
    ensures Get([e] + rest, key) == if e.key == key then Some(e.value) else Get(rest, key)
  {
    assert ([e] + rest)[1..] == rest;
  }

  /** Looking up three kinds of entries in a peer section whose optional part sits in the middle or last. */
  lemma GetAround(first: Entry, psk: Option<string>, pskKey: string, last: seq<Entry>, key: string)
    requires first.key != pskKey
    ensures var entries := [first] + (match psk case Some(k) => [Entry(pskKey, k)] case None => []) + last;
            Get(entries, key) ==
              if key == first.key then Some(first.value)
              else if key == pskKey && psk.Some? then psk
              else Get(last, key)
  {
    var middle := match psk case Some(k) => [Entry(pskKey, k)] case None => [];
    assert [first] + middle + last == [first] + (middle + last);
    GetFirst(first, middle + last, key);
    if psk.Some? {
      GetFirst(middle[0], last, key);
    } else {
      assert middle + last == last;
    }
  }

  lemma GetOnly(e: Entry, key: string)
    ensures Get([e], key) == if e.key == key then Some(e.value) else None
  {
    GetFirst(e, [], key);
    assert [e] + [] == [e];
  }

  lemma KeyNamesDiffer()
    ensures "PublicKey" != "PresharedKey" && "PublicKey" != "AllowedIPs" && "PresharedKey" != "AllowedIPs"
    ensures "allowed-ips" != "preshared-key" && "preshared-key" != "preshared-key-flags"
    ensures "ListenPort" != "PrivateKey" && "private-key" != "listen-port"
  {
    assert |"PublicKey"| == 9 && |"PresharedKey"| == 12 && |"AllowedIPs"| == 10;
    assert |"allowed-ips"| == 11 && |"preshared-key"| == 13 && |"preshared-key-flags"| == 19;
    assert "ListenPort"[0] != "PrivateKey"[0] && "private-key"[0] != "listen-port"[0];
  }

  lemma AddressTokens(p: PeerSpec)
    requires CleanPeer(p)
    ensures Tokens(Cidrs(p.address), {'\n'}) && Tokens(Cidrs(p.address), {','})
    ensures ';' !in p.address ==> Tokens(Cidrs(p.address), {';'})
  {
    CidrTokens(p.address, {'\n'});
    if ';' !in p.address {
      CidrTokens(p.address, {';'});
    }
  }

  lemma ServerPeerRecovered(p: PeerSpec)
    requires CleanPeer(p)
    ensures PeerOf(Server, PeerSection(Server, p)) == PeerTextOf(p)
  {
    KeyNamesDiffer();
    var first, last := Entry("PublicKey", p.publicKey), Entry("AllowedIPs", p.address);
    GetAround(first, KnownPsk(p), "PresharedKey", [last], "PublicKey");
    GetAround(first, KnownPsk(p), "PresharedKey", [last], "PresharedKey");
    GetAround(first, KnownPsk(p), "PresharedKey", [last], "AllowedIPs");
    GetOnly(last, "PresharedKey");
    GetOnly(last, "AllowedIPs");
  }

  lemma NetdevPeerRecovered(p: PeerSpec)
    requires CleanPeer(p)
    ensures PeerOf(Netdev, PeerSection(Netdev, p)) == PeerTextOf(p)
  {
    KeyNamesDiffer();
    AddressTokens(p);
    ListReadsBack(Cidrs(p.address), ',');
    var first, last := Entry("PublicKey", p.publicKey), Entry("AllowedIPs", JoinWith(Cidrs(p.address), ','));
    GetAround(first, KnownPsk(p), "PresharedKey", [last], "PublicKey");
    GetAround(first, KnownPsk(p), "PresharedKey", [last], "PresharedKey");
    GetAround(first, KnownPsk(p), "PresharedKey", [last], "AllowedIPs");
    GetOnly(last, "PresharedKey");
    GetOnly(last, "AllowedIPs");
  }

  /** What a keyfile carries of a peer: everything but the addresses is as given. */
  lemma KeyfilePeerRead(p: PeerSpec)
    requires CleanPeer(p)
    ensures IsPeer(Keyfile, PeerSection(Keyfile, p).header)
    ensures PeerOf(Keyfile, PeerSection(Keyfile, p))
         == PeerText(Some(p.publicKey), NonEmptyTrimmed(Split(JoinWith(Cidrs(p.address), ';') + ";", {';'})),
            KnownPsk(p))
  {
    KeyNamesDiffer();
    var first := Entry("allowed-ips", JoinWith(Cidrs(p.address), ';') + ";");
    var flags := Entry("preshared-key-flags", "0");
    var last := if KnownPsk(p).Some? then [flags] else [];
    GetAround(first, KnownPsk(p), "preshared-key", last, "preshared-key");
    GetAround(first, KnownPsk(p), "preshared-key", last, "allowed-ips");
    GetOnly(flags, "preshared-key");
    assert (PEER_PREFIX + p.publicKey)[|PEER_PREFIX|..] == p.publicKey;
  }

  /** An address token holding a `;` cannot come back as one token. */
  lemma SemicolonIsLost(address: string, text: string)
    requires ';' in address
    ensures NonEmptyTrimmed(Split(text, {';'})) != Cidrs(address)
  {
    var k := SplitKeeps(address, {',', ' '}, ';');
    var n := TrimmedKeeps(Split(address, {',', ' '}), k, ';');
    TrimmedTokens(Split(text, {';'}), {';'});
    assert ';' in Cidrs(address)[n];
  }

  lemma KeyfilePeerRecovered(p: PeerSpec)
    requires CleanPeer(p)
    ensures IsPeer(Keyfile, PeerSection(Keyfile, p).header)
    ensures PeerOf(Keyfile, PeerSection(Keyfile, p)) == PeerTextOf(p) <==> ';' !in p.address
  {
    KeyfilePeerRead(p);
    AddressTokens(p);
    if ';' !in p.address {
      ClosedListReadsBack(Cidrs(p.address), ';');
    } else {
      SemicolonIsLost(p.address, JoinWith(Cidrs(p.address), ';') + ";");
    }
  }

  lemma PeerRecovered(style: Style, p: PeerSpec)
    requires CleanPeer(p)
    ensures IsPeer(style, PeerSection(style, p).header)
    ensures PeerOf(style, PeerSection(style, p)) == PeerTextOf(p) <==> Carried(style, p)
  {
    match style
    case Server => ServerPeerRecovered(p);
    case Netdev => NetdevPeerRecovered(p);
    case Keyfile => KeyfilePeerRecovered(p);
  }

  lemma PeerKeys()
    ensures Key("PublicKey") && Key("PresharedKey") && Key("AllowedIPs")
  {
  }

  lemma KeyfilePeerKeys()
    ensures Key("allowed-ips") && Key("preshared-key") && Key("preshared-key-flags")
  {
  }

  ghost predicate AllWellFormed(entries: seq<Entry>) {
    forall k :: 0 <= k < |entries| ==> WellFormed(entries[k])
  }

  lemma ServerPeerWritable(p: PeerSpec)
    requires CleanPeer(p)
    ensures Writable(PeerSection(Server, p))
  {
    PeerKeys();
  }

  lemma NetdevPeerWritable(p: PeerSpec)
    requires CleanPeer(p)
    ensures Writable(PeerSection(Netdev, p))
  {
    PeerKeys();
    AddressTokens(p);
    JoinedOneLine(Cidrs(p.address), ',');
  }

  lemma KeyfilePeerWritable(p: PeerSpec)
    requires CleanPeer(p)
    ensures Writable(PeerSection(Keyfile, p))
  {
    KeyfilePeerKeys();
    AddressTokens(p);
    JoinedOneLine(Cidrs(p.address), ';');
    assert OneLine(PEER_PREFIX + p.publicKey);
  }

  lemma PeerWritable(style: Style, p: PeerSpec)
    requires CleanPeer(p)
    ensures Writable(PeerSection(style, p))
  {
    match style
    case Server => ServerPeerWritable(p);
    case Netdev => NetdevPeerWritable(p);
    case Keyfile => KeyfilePeerWritable(p);
  }

  lemma {:induction false} PeersOfConcat(style: Style, a: seq<Section>, b: seq<Section>)
    ensures PeersOf(style, a + b) == PeersOf(style, a) + PeersOf(style, b)
  {
    if a == [] {
      assert a + b == b;
    } else {
      assert (a + b)[1..] == a[1..] + b;
      PeersOfConcat(style, a[1..], b);
    }
  }

  lemma {:induction false} PeersOfAll(style: Style, sections: seq<Section>, peers: seq<PeerText>)
    requires |sections| == |peers|
    requires forall k :: 0 <= k < |sections| ==>
        IsPeer(style, sections[k].header) && PeerOf(style, sections[k]) == peers[k]
    ensures PeersOf(style, sections) == peers
  {
    if sections != [] {
      PeersOfAll(style, sections[1..], peers[1..]);
      assert [peers[0]] + peers[1..] == peers;
    }
  }

  /** The peers come back as they were exactly when the format carries each of them. */
  lemma PeersRecovered(style: Style, peers: seq<PeerSpec>)
    requires forall k :: 0 <= k < |peers| ==> CleanPeer(peers[k])
    ensures PeersOf(style, PeerSections(style, peers)) == PeerTexts(peers)
       <==> forall k :: 0 <= k < |peers| ==> Carried(style, peers[k])
  {
    var sections, texts := PeerSections(style, peers), PeerTexts(peers);
    forall k | 0 <= k < |peers|
      ensures IsPeer(style, sections[k].header)
          && (PeerOf(style, sections[k]) == texts[k] <==> Carried(style, peers[k]))
    {
      PeerRecovered(style, peers[k]);
    }
    var read := seq(|peers|, k requires 0 <= k < |peers| => PeerOf(style, sections[k]));
    PeersOfAll(style, sections, read);
    assert read == texts <==> forall k :: 0 <= k < |peers| ==> read[k] == texts[k];
  }

  // ---- The interface ----

  lemma DeviceKeys()
    ensures Key("ListenPort") && Key("PrivateKey") && Key("Name") && Key("Kind")
  {
  }

  lemma TunnelKeys()
    ensures Key("private-key") && Key("listen-port")
  {
  }

  lemma ServerHeadWritable(iface: InterfaceSpec)
    requires Clean(iface, [])
    ensures AllWritable(HeadSections(Server, iface))
  {
    DeviceKeys();
  }

  lemma NetdevHeadWritable(iface: InterfaceSpec)
    requires Clean(iface, [])
    ensures AllWritable(HeadSections(Netdev, iface))
  {
    DeviceKeys();
  }

  lemma KeyfileHeadWritable(iface: InterfaceSpec)
    requires Clean(iface, [])
    ensures AllWritable(HeadSections(Keyfile, iface))
  {
    TunnelKeys();
  }

  lemma HeadWritable(style: Style, iface: InterfaceSpec)
    requires Clean(iface, [])
    ensures AllWritable(HeadSections(style, iface))
  {
    match style
    case Server => ServerHeadWritable(iface);
    case Netdev => NetdevHeadWritable(iface);
    case Keyfile => KeyfileHeadWritable(iface);
  }

  lemma AddressKey(n: nat)
    ensures Key("address" + Decimal(n))
  {
    var d := Decimal(n);
    var k := "address" + d;
    assert k[0] == 'a' && k[|k| - 1] == d[|d| - 1] && d[|d| - 1] in d;
    forall i | 0 <= i < |k| ensures k[i] != '=' && k[i] != '\n' {
      if i >= 7 {
        assert k[i] == d[i - 7] && d[i - 7] in d;
      }
    }
  }

  lemma {:induction false} FilteredTokens(ts: seq<string>, keep: string -> bool)
    requires Tokens(ts, {'\n'})
    ensures Tokens(Sequences.Filter(ts, keep), {'\n'})
  {
    if ts != [] {
      FilteredTokens(ts[..|ts| - 1], keep);
    }
  }

  lemma FamilyWritable(header: string, tokens: seq<string>, unused: string)
    requires OneLine(header) && OneLine(unused) && Tokens(tokens, {'\n'})
    ensures Writable(FamilySection(header, tokens, unused))
  {
    assert Key("method");
    forall i | 0 <= i < |tokens| ensures WellFormed(AddressEntries(tokens)[i]) {
      AddressKey(i + 1);
    }
    assert [] + AddressEntries(tokens) == AddressEntries(tokens);
  }

  lemma TailWritable(style: Style, iface: InterfaceSpec)
    requires Clean(iface, [])
    ensures AllWritable(TailSections(style, iface))
  {
    CidrTokens(iface.address, {'\n'});
    FilteredTokens(Cidrs(iface.address), (a: string) => (':' in a) == false);
    FilteredTokens(Cidrs(iface.address), (a: string) => (':' in a) == true);
    FamilyWritable("ipv4", OfFamily(iface.address, false), "disabled");
    FamilyWritable("ipv6", OfFamily(iface.address, true), "ignore");
  }

  lemma NoPeersInHead(style: Style, iface: InterfaceSpec)
    ensures PeersOf(style, HeadSections(style, iface)) == []
  {
    var h := HeadSections(style, iface);
    assert PeersOf(style, h[1..]) == [];
  }

  lemma NoPeersInTail(style: Style, iface: InterfaceSpec)
    ensures PeersOf(style, TailSections(style, iface)) == []
  {
    var t := TailSections(style, iface);
    if style.Keyfile? {
      assert PeersOf(style, t[1..]) == [];
    }
  }

  lemma FindFirst(s: Section, rest: seq<Section>, header: string)
    ensures Find([s] + rest, header) == if s.header == header then s.entries else Find(rest, header)
  {
    assert ([s] + rest)[1..] == rest;
  }

  /** The interface section, wherever it stands in the head, is the one found. */
  lemma InterfaceFound(style: Style, iface: InterfaceSpec, rest: seq<Section>)
    ensures var h := HeadSections(style, iface);
            Find(h + rest, InterfaceHeader(style)) == h[|h| - 1].entries
  {
    var h := HeadSections(style, iface);
    if style.Server? {
      FindFirst(h[0], rest, "Interface");
    } else {
      assert h + rest == [h[0]] + ([h[1]] + rest);
      FindFirst(h[0], [h[1]] + rest, InterfaceHeader(style));
      FindFirst(h[1], rest, InterfaceHeader(style));
      assert |"NetDev"| == 6 && |"WireGuard"| == 9 && |"connection"| == 10 && |"wireguard"| == 9;
    }
  }

  lemma GetPair(a: Entry, b: Entry, key: string)
    ensures Get([a, b], key) == if a.key == key then Some(a.value) else if b.key == key then Some(b.value) else None
  {
    GetFirst(a, [b], key);
    assert [a] + [b] == [a, b];
    GetOnly(b, key);
  }

  lemma InterfaceRecovered(style: Style, iface: InterfaceSpec)
    ensures var h := HeadSections(style, iface);
            var entries := h[|h| - 1].entries;
            && Get(entries, PrivateKeyName(style)) == Some(iface.privateKey)
            && Get(entries, PortName(style)) == Some(Decimal(iface.listenPort))
  {
    KeyNamesDiffer();
    var h := HeadSections(style, iface);
    var entries := h[|h| - 1].entries;
    GetPair(entries[0], entries[1], PrivateKeyName(style));
    GetPair(entries[0], entries[1], PortName(style));
    assert entries == [entries[0], entries[1]];
  }

  lemma OnlyPeerSectionsCount(style: Style, h: seq<Section>, p: seq<Section>, t: seq<Section>)
    requires PeersOf(style, h) == [] && PeersOf(style, t) == []
    ensures PeersOf(style, h + p + t) == PeersOf(style, p)
  {
    PeersOfConcat(style, h + p, t);
    PeersOfConcat(style, h, p);
  }

  /** The key and port are recovered whatever sections follow the head. */
  lemma HeadCarries(style: Style, iface: InterfaceSpec, rest: seq<Section>)
    ensures var entries := Find(HeadSections(style, iface) + rest, InterfaceHeader(style));
            && Get(entries, PrivateKeyName(style)) == Some(iface.privateKey)
            && Get(entries, PortName(style)) == Some(Decimal(iface.listenPort))
  {
    InterfaceFound(style, iface, rest);
    InterfaceRecovered(style, iface);
  }

  lemma RecoverIs(style: Style, sections: seq<Section>, key: string, port: nat, peers: seq<PeerText>)
    requires Get(Find(sections, InterfaceHeader(style)), PrivateKeyName(style)) == Some(key)
    requires Get(Find(sections, InterfaceHeader(style)), PortName(style)) == Some(Decimal(port))
    requires PeersOf(style, sections) == peers
    ensures Recover(style, sections) == Doc(Some(key), Some(port), peers)
  {
    NumberOfDecimal(port);
  }

  lemma Regrouped(h: seq<Section>, p: seq<Section>, t: seq<Section>)
    ensures h + p + t == h + (p + t)
  {
  }

  /** Reading the sections of a format gives the desired state exactly when the format carries its peers. */
  lemma SectionsRecovered(style: Style, iface: InterfaceSpec, peers: seq<PeerSpec>)
    requires Clean(iface, peers)
    ensures Recover(style, AllSections(style, iface, peers)) == DocOf(iface, peers)
       <==> forall k :: 0 <= k < |peers| ==> Carried(style, peers[k])
  {
    Regrouped(HeadSections(style, iface), PeerSections(style, peers), TailSections(style, iface));
    NoPeersInHead(style, iface);
    NoPeersInTail(style, iface);
    PeersRecovered(style, peers);
    OnlyPeerSectionsCount(style, HeadSections(style, iface), PeerSections(style, peers), TailSections(style, iface));
    HeadCarries(style, iface, PeerSections(style, peers) + TailSections(style, iface));
    RecoverIs(style, AllSections(style, iface, peers), iface.privateKey, iface.listenPort,
              PeersOf(style, PeerSections(style, peers)));
  }

  /**
   A rendering of one-line fields reads back as the desired state exactly when the format
   carries its peers: always for the `wg` configuration and the systemd-networkd file, and
   for the keyfile when no device address holds a `;`.
   */
  lemma SameDesiredState(style: Style, iface: InterfaceSpec, peers: seq<PeerSpec>)
    requires Clean(iface, peers)
    ensures Recover(style, Read(Rendered(style, iface, peers), Spaced(style))) == DocOf(iface, peers)
       <==> forall k :: 0 <= k < |peers| ==> Carried(style, peers[k])
  {
    HeadWritable(style, iface);
    TailWritable(style, iface);
    forall k | 0 <= k < |peers| ensures Writable(PeerSections(style, peers)[k]) {
      PeerWritable(style, peers[k]);
    }
    ReadsBack(style, iface, peers);
    SectionsRecovered(style, iface, peers);
  }

  /** So equal files of any one format mean equal keys, ports and peers. */
  lemma RenderingIsFaithful(style: Style, i: InterfaceSpec, ps: seq<PeerSpec>, j: InterfaceSpec, qs: seq<PeerSpec>)
    requires Clean(i, ps) && Clean(j, qs)
    requires forall k :: 0 <= k < |ps| ==> Carried(style, ps[k])
    requires forall k :: 0 <= k < |qs| ==> Carried(style, qs[k])
    requires Rendered(style, i, ps) == Rendered(style, j, qs)
    ensures DocOf(i, ps) == DocOf(j, qs)
  {
    SameDesiredState(style, i, ps);
    SameDesiredState(style, j, qs);
  }
}
