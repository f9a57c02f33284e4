/** The downloaded file reads back: every field it was rendered from can be recovered from it. */
module ClientText {
  import opened ClientConfig
  import opened DesiredText
  import opened Ini
  import opened Store
  import opened Strings
  import opened TextBackends
  import opened Wrappers
  import TextRenderers

  function Optional(key: string, value: Option<string>): seq<Entry> {
    if value.Some? && value.value != "" then [Entry(key, value.value)] else []
  }

  function KeepaliveEntries(seconds: nat): seq<Entry> {
    if seconds > 0 then [Entry("PersistentKeepalive", Decimal(seconds))] else []
  }

  function DeviceEntries(c: Inputs): seq<Entry> {
    [Entry("PrivateKey", c.privateKey), Entry("Address", c.address)] + Optional("DNS", c.dns)
  }

  function ServerEntries(c: Inputs): seq<Entry> {
    [Entry("PublicKey", c.serverPublicKey)] + Optional("PresharedKey", c.presharedKey)
    + [Entry("Endpoint", c.endpoint), Entry("AllowedIPs", c.allowedIps)] + KeepaliveEntries(c.keepalive)
  }

  function FileLines(device: seq<Entry>, server: seq<Entry>): seq<string> {
    BlockLines(Section("Interface", device), true, false) + SectionLines("Peer", server, true)
  }

  // ---- The file is these lines ----

  lemma EntryText(s: string, literal: string, lines: seq<string>, header: string, entries: seq<Entry>, key: string,
      value: string)
    requires literal == key + " = "
    requires TextRenderers.Open(s, lines, header, entries, true)
    ensures TextRenderers.Open(s + literal + value + "\n", lines, header, entries + [Entry(key, value)], true)
  {
    TextRenderers.Grown(s, lines, header, entries, key, value, true);
    assert s + literal + value == s + (literal + value);
  }

  lemma OptionalText(s: string, lines: seq<string>, header: string, entries: seq<Entry>, key: string,
      value: Option<string>)
    requires TextRenderers.Open(s, lines, header, entries, true)
    ensures TextRenderers.Open(s + Line(key, value), lines, header, entries + Optional(key, value), true)
  {
    if value.Some? && value.value != "" {
      EntryText(s, key + " = ", lines, header, entries, key, value.value);
      var l := key + " = " + value.value + "\n";
      assert s + (key + " = ") + value.value + "\n" == s + l;
    } else {
      assert s + "" == s && entries + [] == entries;
    }
  }

  lemma KeepaliveText(s: string, lines: seq<string>, header: string, entries: seq<Entry>, seconds: nat)
    requires TextRenderers.Open(s, lines, header, entries, true)
    ensures TextRenderers.Open(s + KeepaliveLine(seconds), lines, header, entries + KeepaliveEntries(seconds), true)
  {
    if seconds > 0 {
      assert "PersistentKeepalive" + " = " == "PersistentKeepalive = ";
      EntryText(s, "PersistentKeepalive = ", lines, header, entries, "PersistentKeepalive", Decimal(seconds));
      assert s + "PersistentKeepalive = " + Decimal(seconds) + "\n"
          == s + ("PersistentKeepalive = " + Decimal(seconds) + "\n");
    } else {
      assert s + "" == s && entries + [] == entries;
    }
  }

  /** Header, `PrivateKey`, `Address` and perhaps `DNS`. */
  function DeviceText(c: Inputs): string {
    "[Interface]\n"
    + "PrivateKey = " + c.privateKey + "\n"
    + "Address = " + c.address + "\n"
    + Line("DNS", c.dns)
  }

  lemma DeviceTextIs(c: Inputs)
    ensures TextRenderers.Open(DeviceText(c), [], "Interface", DeviceEntries(c), true)
  {
    var s := "[Interface]\n";
    assert s == TextRenderers.Line("", HeaderLine("Interface"));
    TextRenderers.Opened("", [], "Interface", true);
    assert "PrivateKey" + " = " == "PrivateKey = " && "Address" + " = " == "Address = ";
    EntryText(s, "PrivateKey = ", [], "Interface", [], "PrivateKey", c.privateKey);
    s := s + "PrivateKey = " + c.privateKey + "\n";
    EntryText(s, "Address = ", [], "Interface", [] + [Entry("PrivateKey", c.privateKey)], "Address", c.address);
    s := s + "Address = " + c.address + "\n";
    OptionalText(s, [], "Interface", [Entry("PrivateKey", c.privateKey), Entry("Address", c.address)], "DNS", c.dns);
  }

  /** `front` and then the peer section as rendered. */
  function WithServer(front: string, c: Inputs): string {
    front
    + "[Peer]\n"
    + "PublicKey = " + c.serverPublicKey + "\n"
    + Line("PresharedKey", c.presharedKey)
    + "Endpoint = " + c.endpoint + "\n"
    + "AllowedIPs = " + c.allowedIps + "\n"
    + KeepaliveLine(c.keepalive)
  }

  lemma ServerTextIs(front: string, lines: seq<string>, c: Inputs)
    requires front == JoinLines(lines)
    ensures TextRenderers.Open(WithServer(front, c), lines, "Peer", ServerEntries(c), true)
  {
    assert "[Peer]\n" == HeaderLine("Peer") + "\n";
    assert front + "[Peer]\n" == TextRenderers.Line(front, HeaderLine("Peer"));
    TextRenderers.Opened(front, lines, "Peer", true);
    KeyedText(front + "[Peer]\n", lines, c);
    AddressedText(
      front + "[Peer]\n" + "PublicKey = " + c.serverPublicKey + "\n" + Line("PresharedKey", c.presharedKey),
      lines, [Entry("PublicKey", c.serverPublicKey)] + Optional("PresharedKey", c.presharedKey), c);
  }

  lemma KeyedText(s: string, lines: seq<string>, c: Inputs)
    requires TextRenderers.Open(s, lines, "Peer", [], true)
    ensures TextRenderers.Open(
              s + "PublicKey = " + c.serverPublicKey + "\n" + Line("PresharedKey", c.presharedKey),
              lines, "Peer", [Entry("PublicKey", c.serverPublicKey)] + Optional("PresharedKey", c.presharedKey), true)
  {
    assert "PublicKey" + " = " == "PublicKey = ";
    EntryText(s, "PublicKey = ", lines, "Peer", [], "PublicKey", c.serverPublicKey);
    assert [] + [Entry("PublicKey", c.serverPublicKey)] == [Entry("PublicKey", c.serverPublicKey)];
    OptionalText(s + "PublicKey = " + c.serverPublicKey + "\n", lines, "Peer",
      [Entry("PublicKey", c.serverPublicKey)], "PresharedKey", c.presharedKey);
  }

  lemma AddressedText(s: string, lines: seq<string>, es: seq<Entry>, c: Inputs)
    requires TextRenderers.Open(s, lines, "Peer", es, true)
    ensures TextRenderers.Open(
              s + "Endpoint = " + c.endpoint + "\n" + "AllowedIPs = " + c.allowedIps + "\n"
                  + KeepaliveLine(c.keepalive),
              lines, "Peer",
              es + [Entry("Endpoint", c.endpoint), Entry("AllowedIPs", c.allowedIps)]
                  + KeepaliveEntries(c.keepalive), true)
  {
    assert "Endpoint" + " = " == "Endpoint = " && "AllowedIPs" + " = " == "AllowedIPs = ";
    EntryText(s, "Endpoint = ", lines, "Peer", es, "Endpoint", c.endpoint);
    var s1 := s + "Endpoint = " + c.endpoint + "\n";
    EntryText(s1, "AllowedIPs = ", lines, "Peer", es + [Entry("Endpoint", c.endpoint)], "AllowedIPs", c.allowedIps);
    assert es + [Entry("Endpoint", c.endpoint)] + [Entry("AllowedIPs", c.allowedIps)]
        == es + [Entry("Endpoint", c.endpoint), Entry("AllowedIPs", c.allowedIps)];
    KeepaliveText(s1 + "AllowedIPs = " + c.allowedIps + "\n", lines, "Peer",
                  es + [Entry("Endpoint", c.endpoint), Entry("AllowedIPs", c.allowedIps)], c.keepalive);
  }

  lemma TextIsLines(c: Inputs)
    ensures ConfigText(c) == JoinLines(FileLines(DeviceEntries(c), ServerEntries(c)))
  {
    DeviceTextIs(c);
    var device := Section("Interface", DeviceEntries(c));
    TextRenderers.ClosedBy(DeviceText(c), [], device, true);
    assert [] + BlockLines(device, true, false) == BlockLines(device, true, false);
    assert DeviceText(c) + "" + "\n" == DeviceText(c) + "\n";
    ServerTextIs(DeviceText(c) + "\n", BlockLines(device, true, false), c);
    assert ConfigText(c) == WithServer(DeviceText(c) + "\n", c);
  }

  // ---- Reading it back ----

  ghost predicate CleanInputs(c: Inputs) {
    && OneLine(c.privateKey) && OneLine(c.address) && OneLine(c.serverPublicKey) && OneLine(c.endpoint)
       && OneLine(c.allowedIps)
    && (c.dns.Some? ==> OneLine(c.dns.value))
    && (c.presharedKey.Some? ==> OneLine(c.presharedKey.value))
  }

  lemma DeviceWellFormed(c: Inputs)
    requires CleanInputs(c)
    ensures AllWellFormed(DeviceEntries(c))
  {
    assert Key("PrivateKey") && Key("Address") && Key("DNS");
    assert DeviceEntries(c) + [] == DeviceEntries(c);
  }

  lemma KeepaliveWellFormed(seconds: nat)
    ensures AllWellFormed(KeepaliveEntries(seconds))
  {
    assert Key("PersistentKeepalive");
  }

  lemma ServerWellFormed(c: Inputs)
    requires CleanInputs(c)
    ensures AllWellFormed(ServerEntries(c))
  {
    assert Key("PublicKey") && Key("PresharedKey");
    assert Key("Endpoint") && Key("AllowedIPs");
    KeepaliveWellFormed(c.keepalive);
  }

  /** The two sections, device first, as a reader sees them. */
  lemma ClientFileReadsBack(c: Inputs)
    requires CleanInputs(c)
    ensures Read(ConfigText(c), true) == [Section("Interface", DeviceEntries(c)), Section("Peer", ServerEntries(c))]
  {
    TextIsLines(c);
    DeviceWellFormed(c);
    ServerWellFormed(c);
    FileReadsBack(DeviceEntries(c), ServerEntries(c));
  }

  lemma FileReadsBack(deviceEntries: seq<Entry>, serverEntries: seq<Entry>)
    requires AllWellFormed(deviceEntries) && AllWellFormed(serverEntries)
    ensures Read(JoinLines(FileLines(deviceEntries, serverEntries)), true)
         == [Section("Interface", deviceEntries), Section("Peer", serverEntries)]
  {
    var device, server := Section("Interface", deviceEntries), Section("Peer", serverEntries);
    BlockReadsBack([], device, true, false);
    LastReadsBack([] + [device], server, true);
    Follow([], BlockLines(device, true, false), SectionLines("Peer", server.entries, true), [device], [server], true);
    ReadWhole(FileLines(device.entries, server.entries), [device] + [server], true);
    assert [device] + [server] == [device, server];
  }

  /** An absent optional value and an empty one are the same file. */
  function Given(value: Option<string>): Option<string> {
    if value.Some? && value.value != "" then value else None
  }

  lemma OptionalGet(key: string, value: Option<string>, rest: seq<Entry>, k: string)
    ensures Get(Optional(key, value) + rest, k) == if k == key && Given(value).Some? then Given(value) else Get(rest, k)
  {
    if value.Some? && value.value != "" {
      GetFirst(Entry(key, value.value), rest, k);
    } else {
      assert [] + rest == rest;
    }
  }

  lemma DeviceRecovered(c: Inputs)
    ensures Get(DeviceEntries(c), "PrivateKey") == Some(c.privateKey)
    ensures Get(DeviceEntries(c), "Address") == Some(c.address)
    ensures Get(DeviceEntries(c), "DNS") == Given(c.dns)
  {
    var key, address, dns := Entry("PrivateKey", c.privateKey), Entry("Address", c.address), Optional("DNS", c.dns);
    assert |"PrivateKey"| == 10 && |"Address"| == 7 && |"DNS"| == 3;
    assert DeviceEntries(c) == [key] + ([address] + dns) && dns + [] == dns;
    GetFirst(key, [address] + dns, "PrivateKey");
    GetFirst(key, [address] + dns, "Address");
    GetFirst(key, [address] + dns, "DNS");
    GetFirst(address, dns, "Address");
    GetFirst(address, dns, "DNS");
    OptionalGet("DNS", c.dns, [], "DNS");
  }

  lemma GetThrough(first: Entry, psk: Option<string>, second: Entry, third: Entry, rest: seq<Entry>, k: string)
    ensures Get([first] + Optional("PresharedKey", psk) + [second, third] + rest, k) ==
      if first.key == k then Some(first.value)
      else if k == "PresharedKey" && Given(psk).Some? then Given(psk)
      else if second.key == k then Some(second.value)
      else if third.key == k then Some(third.value)
      else Get(rest, k)
  {
    var opt := Optional("PresharedKey", psk);
    assert [first] + opt + [second, third] + rest == [first] + (opt + ([second] + ([third] + rest)));
    GetFirst(first, opt + ([second] + ([third] + rest)), k);
    OptionalGet("PresharedKey", psk, [second] + ([third] + rest), k);
    GetFirst(second, [third] + rest, k);
    GetFirst(third, rest, k);
  }

  lemma KeepaliveRecovered(seconds: nat, k: string)
    ensures Get(KeepaliveEntries(seconds), k) == if k == "PersistentKeepalive" && seconds > 0
        then Some(Decimal(seconds)) else None
  {
    if seconds > 0 {
      GetOnly(Entry("PersistentKeepalive", Decimal(seconds)), k);
    }
  }

  lemma ServerGet(c: Inputs, k: string)
    ensures Get(ServerEntries(c), k) ==
      if k == "PublicKey" then Some(c.serverPublicKey)
      else if k == "PresharedKey" && Given(c.presharedKey).Some? then Given(c.presharedKey)
      else if k == "Endpoint" then Some(c.endpoint)
      else if k == "AllowedIPs" then Some(c.allowedIps)
      else if k == "PersistentKeepalive" && c.keepalive > 0 then Some(Decimal(c.keepalive))
      else None
  {
    GetThrough(Entry("PublicKey", c.serverPublicKey), c.presharedKey, Entry("Endpoint", c.endpoint),
               Entry("AllowedIPs", c.allowedIps), KeepaliveEntries(c.keepalive), k);
    KeepaliveRecovered(c.keepalive, k);
  }

  /** Everything the client needs, taken from the sections of its file. */
  function InputsFrom(device: seq<Entry>, server: seq<Entry>): Option<Inputs> {
    var key, address := Get(device, "PrivateKey"), Get(device, "Address");
    var publicKey, endpoint, allowed := Get(server, "PublicKey"), Get(server, "Endpoint"), Get(server, "AllowedIPs");
    var seconds := match Get(server, "PersistentKeepalive") case Some(v) => Number(v) case None => Some(0);
    if key.Some? && address.Some? && publicKey.Some? && endpoint.Some? && allowed.Some? && seconds.Some?
    then Some(Inputs(key.value, address.value, Get(device, "DNS"), publicKey.value, Get(server, "PresharedKey"),
                     endpoint.value, allowed.value, seconds.value))
    else None
  }

  lemma ServerRecovered(c: Inputs)
    ensures Get(ServerEntries(c), "PublicKey") == Some(c.serverPublicKey)
    ensures Get(ServerEntries(c), "PresharedKey") == Given(c.presharedKey)
    ensures Get(ServerEntries(c), "Endpoint") == Some(c.endpoint)
    ensures Get(ServerEntries(c), "AllowedIPs") == Some(c.allowedIps)
    ensures Get(ServerEntries(c), "PersistentKeepalive") == if c.keepalive > 0 then Some(Decimal(c.keepalive)) else None
  {
    assert |"PublicKey"| == 9 && |"PresharedKey"| == 12 && |"Endpoint"| == 8 && |"AllowedIPs"| == 10
        && |"PersistentKeepalive"| == 19;
    ServerGet(c, "PublicKey");
    ServerGet(c, "PresharedKey");
    ServerGet(c, "Endpoint");
    ServerGet(c, "AllowedIPs");
    ServerGet(c, "PersistentKeepalive");
  }

  function Normal(c: Inputs): Inputs {
    c.(dns := Given(c.dns), presharedKey := Given(c.presharedKey))
  }

  lemma InputsRecovered(c: Inputs)
    ensures InputsFrom(DeviceEntries(c), ServerEntries(c)) == Some(Normal(c))
  {
    DeviceRecovered(c);
    ServerRecovered(c);
    NumberOfDecimal(c.keepalive);
  }

  function Recovered(text: string): Option<Inputs> {
    var sections := Read(text, true);
    if |sections| == 2 then InputsFrom(sections[0].entries, sections[1].entries) else None
  }

  /** The client recovers from its file everything the file was rendered from. */
  lemma ClientRecoversInputs(c: Inputs)
    requires CleanInputs(c)
    ensures Recovered(ConfigText(c)) == Some(Normal(c))
  {
    ClientFileReadsBack(c);
    InputsRecovered(c);
  }

  /** The low 16 bits of a 32-bit integer, two's complement. */
  ghost predicate LowHalf(n: int, low: int) {
    0 <= low < 65536 && exists high: int :: n == high * 65536 + low
  }

  /**
   From the stored rows to the client: what a client reads out of a device's file is the
   private key handed to the renderer, the device's address and preshared key, and the
   interface's public key, endpoint, allowed addresses, DNS and keepalive (its low 16 bits).
   */
  lemma ClientRecoversRows(iface: Interface, p: Peer, key: string)
    requires OneLine(key) && OneLine(p.address) && OneLine(iface.publicKey) && OneLine(iface.endpoint)
    requires OneLine(iface.allowedIps) && (iface.dns.Some? ==> OneLine(iface.dns.value))
    requires p.presharedKey.Some? ==> OneLine(p.presharedKey.value)
    ensures var r := Recovered(RenderPeerConfig(iface, p, key));
            && r.Some?
            && r.value.privateKey == key
            && r.value.address == p.address
            && r.value.presharedKey == (if p.presharedKey == Some("") then None else p.presharedKey)
            && r.value.serverPublicKey == iface.publicKey
            && r.value.endpoint == iface.endpoint
            && r.value.allowedIps == iface.allowedIps
            && r.value.dns == (if iface.dns == Some("") then None else iface.dns)
            && LowHalf(iface.keepalive, r.value.keepalive)
  {
    ClientRecoversInputs(InputsOf(iface, p, key));
    assert iface.keepalive == (iface.keepalive / 65536) * 65536 + iface.keepalive % 65536;
  }

  /** Two files are the same exactly when they were rendered from the same values. */
  lemma SameFileSameInputs(c: Inputs, d: Inputs)
    requires CleanInputs(c) && CleanInputs(d)
    ensures ConfigText(c) == ConfigText(d) <==> Normal(c) == Normal(d)
  {
    ClientRecoversInputs(c);
    ClientRecoversInputs(d);
    if Normal(c) == Normal(d) {
      NormalIsEnough(c, d);
    }
  }

  lemma NormalIsEnough(c: Inputs, d: Inputs)
    requires Normal(c) == Normal(d)
    ensures ConfigText(c) == ConfigText(d)
  {
    assert Line("DNS", c.dns) == Line("DNS", d.dns);
    assert Line("PresharedKey", c.presharedKey) == Line("PresharedKey", d.presharedKey);
  }

  // ---- Files that differ in the editable fields only ----

  lemma FrontCancels(front: string, x: string, y: string)
    requires front + x == front + y
    ensures x == y
  {
    assert x == (front + x)[|front|..] && y == (front + y)[|front|..];
  }

  /** The first line break ends the value. */
  lemma LineEnds(a: string, x: string, b: string, y: string)
    requires OneLine(a) && OneLine(b) && a + ("\n" + x) == b + ("\n" + y)
    ensures a == b && x == y
  {
    var t := a + ("\n" + x);
    assert t[|a|] == '\n' && t[|b|] == '\n';
    assert forall k :: 0 <= k < |a| ==> t[k] == a[k];
    assert forall k :: 0 <= k < |b| ==> t[k] == b[k];
    if |a| == |b| {
      assert t == (a + "\n") + x && t == (b + "\n") + y;
      assert a == t[..|a|] && b == t[..|a|];
      FrontCancels(a + "\n", x, y);
    }
  }

  /** From the endpoint to the end of the file. */
  function EndText(endpoint: string, allowedIps: string, seconds: nat): string {
    "Endpoint = " + (endpoint + ("\n" + ("AllowedIPs = " + (allowedIps + ("\n" + KeepaliveLine(seconds))))))
  }

  function KeyText(c: Inputs): string {
    "[Peer]\n" + "PublicKey = " + c.serverPublicKey + "\n" + Line("PresharedKey", c.presharedKey)
  }

  function OpeningText(c: Inputs): string {
    "[Interface]\n" + "PrivateKey = " + c.privateKey + "\n" + "Address = " + c.address + "\n"
  }

  lemma KeyPart(front: string, c: Inputs)
    ensures front + "[Peer]\n" + "PublicKey = " + c.serverPublicKey + "\n" + Line("PresharedKey", c.presharedKey)
         == front + KeyText(c)
  {
  }

  lemma EndPart(front: string, endpoint: string, allowedIps: string, seconds: nat)
    ensures front + "Endpoint = " + endpoint + "\n" + "AllowedIPs = " + allowedIps + "\n" + KeepaliveLine(seconds)
         == front + EndText(endpoint, allowedIps, seconds)
  {
  }

  lemma Nested(a: string, b: string, c: string, d: string, e: string)
    ensures a + b + c + d + e == a + (b + (c + (d + e)))
  {
  }

  lemma TextInParts(c: Inputs)
    ensures ConfigText(c)
         == OpeningText(c)
            + (Line("DNS", c.dns) + ("\n" + (KeyText(c) + EndText(c.endpoint, c.allowedIps, c.keepalive))))
  {
    var front := OpeningText(c) + Line("DNS", c.dns) + "\n";
    KeyPart(front, c);
    EndPart(front + KeyText(c), c.endpoint, c.allowedIps, c.keepalive);
    Nested(OpeningText(c), Line("DNS", c.dns), "\n", KeyText(c), EndText(c.endpoint, c.allowedIps, c.keepalive));
  }

  lemma DnsRead(a: Option<string>, x: string, b: Option<string>, y: string)
    requires (a.Some? ==> OneLine(a.value)) && (b.Some? ==> OneLine(b.value))
    requires Line("DNS", a) + ("\n" + x) == Line("DNS", b) + ("\n" + y)
    ensures Given(a) == Given(b) && x == y
  {
    var s, t := Line("DNS", a) + ("\n" + x), Line("DNS", b) + ("\n" + y);
    assert Given(a).None? ==> s[0] == '\n';
    assert Given(b).None? ==> t[0] == '\n';
    assert Given(a).Some? ==> s == "DNS = " + (a.value + ("\n" + ("\n" + x))) && s[0] == 'D';
    assert Given(b).Some? ==> t == "DNS = " + (b.value + ("\n" + ("\n" + y))) && t[0] == 'D';
    if Given(a).Some? && Given(b).Some? {
      FrontCancels("DNS = ", a.value + ("\n" + ("\n" + x)), b.value + ("\n" + ("\n" + y)));
      LineEnds(a.value, "\n" + x, b.value, "\n" + y);
      FrontCancels("\n", x, y);
    } else if Given(a).None? && Given(b).None? {
      assert s == "\n" + x && t == "\n" + y;
      FrontCancels("\n", x, y);
    }
  }

  lemma KeepaliveRead(a: nat, b: nat)
    requires KeepaliveLine(a) == KeepaliveLine(b)
    ensures a == b
  {
    if a > 0 && b > 0 {
      assert KeepaliveLine(a) == "PersistentKeepalive = " + (Decimal(a) + "\n");
      assert KeepaliveLine(b) == "PersistentKeepalive = " + (Decimal(b) + "\n");
      FrontCancels("PersistentKeepalive = ", Decimal(a) + "\n", Decimal(b) + "\n");
      assert Decimal(a) == (Decimal(a) + "\n")[..|Decimal(a)|];
      assert Decimal(b) == (Decimal(b) + "\n")[..|Decimal(b)|];
      NumberOfDecimal(a);
      NumberOfDecimal(b);
    }
  }

  lemma EndRead(c: Inputs, d: Inputs)
    requires OneLine(c.endpoint) && OneLine(c.allowedIps) && OneLine(d.endpoint) && OneLine(d.allowedIps)
    requires EndText(c.endpoint, c.allowedIps, c.keepalive) == EndText(d.endpoint, d.allowedIps, d.keepalive)
    ensures c.endpoint == d.endpoint && c.allowedIps == d.allowedIps && c.keepalive == d.keepalive
  {
    var x := "AllowedIPs = " + (c.allowedIps + ("\n" + KeepaliveLine(c.keepalive)));
    var y := "AllowedIPs = " + (d.allowedIps + ("\n" + KeepaliveLine(d.keepalive)));
    FrontCancels("Endpoint = ", c.endpoint + ("\n" + x), d.endpoint + ("\n" + y));
    LineEnds(c.endpoint, x, d.endpoint, y);
    FrontCancels("AllowedIPs = ", c.allowedIps + ("\n" + KeepaliveLine(c.keepalive)),
      d.allowedIps + ("\n" + KeepaliveLine(d.keepalive)));
    LineEnds(c.allowedIps, KeepaliveLine(c.keepalive), d.allowedIps, KeepaliveLine(d.keepalive));
    KeepaliveRead(c.keepalive, d.keepalive);
  }

  /** The fields an administrator can edit are on one line each; nothing is asked of keys and address. */
  predicate EditableOneLine(c: Inputs) {
    OneLine(c.endpoint) && OneLine(c.allowedIps) && (c.dns.Some? ==> OneLine(c.dns.value))
  }

  predicate SameFields(c: Inputs, d: Inputs) {
    Given(c.dns) == Given(d.dns) && c.endpoint == d.endpoint && c.allowedIps == d.allowedIps
    && c.keepalive == d.keepalive
  }

  /**
   Files with the same keys and address are the same when the editable fields are, and if
   these are on one line each, only then.
   */
  lemma SameFileSameFields(c: Inputs, d: Inputs)
    requires c.privateKey == d.privateKey && c.address == d.address
    requires c.serverPublicKey == d.serverPublicKey && c.presharedKey == d.presharedKey
    ensures SameFields(c, d) ==> ConfigText(c) == ConfigText(d)
    ensures EditableOneLine(c) && EditableOneLine(d) ==> (ConfigText(c) == ConfigText(d) <==> SameFields(c, d))
  {
    TextInParts(c);
    TextInParts(d);
    var x := KeyText(c) + EndText(c.endpoint, c.allowedIps, c.keepalive);
    var y := KeyText(d) + EndText(d.endpoint, d.allowedIps, d.keepalive);
    if SameFields(c, d) {
      assert Line("DNS", c.dns) == Line("DNS", d.dns);
    }
    if ConfigText(c) == ConfigText(d) && EditableOneLine(c) && EditableOneLine(d) {
      FrontCancels(OpeningText(c), Line("DNS", c.dns) + ("\n" + x), Line("DNS", d.dns) + ("\n" + y));
      DnsRead(c.dns, x, d.dns, y);
      FrontCancels(KeyText(c), EndText(c.endpoint, c.allowedIps, c.keepalive),
        EndText(d.endpoint, d.allowedIps, d.keepalive));
      EndRead(c, d);
    }
  }

  const ALLOWED := "\nAllowedIPs = "

  lemma AllowedStarts(rest: string)
    ensures "\n" + ("AllowedIPs = " + rest) == ALLOWED + rest
  {
    assert "\n" + "AllowedIPs = " == ALLOWED;
  }

  lemma MovedBreak(e: string, mid: string, a: string, b: string, rest: string)
    ensures (e + mid + a) + (mid + (b + rest)) == e + (mid + ((a + mid + b) + rest))
  {
  }

  lemma SameEnd(e: string, a: string, b: string, seconds: nat)
    ensures EndText(e + ALLOWED + a, b, seconds) == EndText(e, a + ALLOWED + b, seconds)
  {
    var rest := "\n" + KeepaliveLine(seconds);
    AllowedStarts(b + rest);
    AllowedStarts((a + ALLOWED + b) + rest);
    MovedBreak(e, ALLOWED, a, b, rest);
  }

  /**
   With line breaks in them, files no longer tell the editable fields apart: an endpoint
   may carry the start of the allowed addresses.
   */
  lemma LineBreaksHideFields(c: Inputs, e: string, a: string, b: string)
    ensures var x := c.(endpoint := e + ALLOWED + a, allowedIps := b);
            var y := c.(endpoint := e, allowedIps := a + ALLOWED + b);
            ConfigText(x) == ConfigText(y) && x.endpoint != y.endpoint && x.allowedIps != y.allowedIps
  {
    var x := c.(endpoint := e + ALLOWED + a, allowedIps := b);
    var y := c.(endpoint := e, allowedIps := a + ALLOWED + b);
    SameEnd(e, a, b, c.keepalive);
    TextInParts(x);
    TextInParts(y);
    assert |x.endpoint| > |e| && |y.allowedIps| > |b|;
  }
}
