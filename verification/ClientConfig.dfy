/** The configuration file a device downloads. */
module ClientConfig {
  import opened Store
  import opened Strings
  import opened Wrappers

  datatype Inputs = Inputs(
    privateKey: string,
    address: string,
    dns: Option<string>,
    serverPublicKey: string,
    presharedKey: Option<string>,
    endpoint: string,
    allowedIps: string,
    keepalive: nat)

  /** One optional line; an empty value counts as absent. */
  function Line(name: string, value: Option<string>): string {
    if value.Some? && value.value != "" then name + " = " + value.value + "\n" else ""
  }

  function KeepaliveLine(seconds: nat): string {
    if seconds > 0 then "PersistentKeepalive = " + Decimal(seconds) + "\n" else ""
  }

  function ConfigText(c: Inputs): string {
    "[Interface]\n"
    + "PrivateKey = " + c.privateKey + "\n"
    + "Address = " + c.address + "\n"
    + Line("DNS", c.dns)
    + "\n"
    + "[Peer]\n"
    + "PublicKey = " + c.serverPublicKey + "\n"
    + Line("PresharedKey", c.presharedKey)
    + "Endpoint = " + c.endpoint + "\n"
    + "AllowedIPs = " + c.allowedIps + "\n"
    + KeepaliveLine(c.keepalive)
  }

  /** The file is built line by line; an empty optional value writes nothing. */
  method RenderClientConfig(c: Inputs) returns (s: string)
    ensures s == ConfigText(c)
  {
    s := "[Interface]\n";
    s := s + "PrivateKey = " + c.privateKey + "\n";
    s := s + "Address = " + c.address + "\n";
    s := PushOptional(s, "DNS", c.dns);
    s := s + "\n";
    s := s + "[Peer]\n";
    s := s + "PublicKey = " + c.serverPublicKey + "\n";
    s := PushOptional(s, "PresharedKey", c.presharedKey);
    s := s + "Endpoint = " + c.endpoint + "\n";
    s := s + "AllowedIPs = " + c.allowedIps + "\n";
    s := PushKeepalive(s, c.keepalive);
  }

  method PushOptional(s: string, name: string, value: Option<string>) returns (r: string)
    ensures r == s + Line(name, value)
  {
    r := s;
    if value.Some? && value.value != "" {
      r := r + (name + " = " + value.value + "\n");
    }
  }

  method PushKeepalive(s: string, seconds: nat) returns (r: string)
    ensures r == s + KeepaliveLine(seconds)
  {
    r := s;
    if seconds > 0 {
      r := r + ("PersistentKeepalive = " + Decimal(seconds) + "\n");
    }
  }

  /** What rendering reads: nothing of the interface row but these fields, nothing of the device but two. */
  function InputsOf(iface: Interface, p: Peer, privateKey: string): Inputs {
    Inputs(privateKey, p.address, iface.dns, iface.publicKey, p.presharedKey,
           iface.endpoint, iface.allowedIps, Low16(iface.keepalive))
  }

  function RenderPeerConfig(iface: Interface, p: Peer, privateKey: string): string {
    ConfigText(InputsOf(iface, p, privateKey))
  }
}
