/** The address strings of devices, split into tokens and parsed. */
module AddressTexts {
  import opened Cidr
  import opened Strings
  import opened Wrappers

  /** What the two allocators see of a token: the address in front of the slash, and the network. */
  datatype Token = Token(addr: Option<IpAddr>, net: Option<IpNet>)

  type AddressSpec = seq<Token>

  /** The network library's parsers. */
  datatype Parser = Parser(addr: string -> Option<IpAddr>, net: string -> Option<IpNet>)

  function BeforeSlash(s: string): string {
    if s == "" || s[0] == '/' then "" else [s[0]] + BeforeSlash(s[1..])
  }

  function ParseToken(p: Parser, token: string): Token {
    Token(p.addr(Trim(BeforeSlash(token))), p.net(token))
  }

  function ParseTokens(p: Parser, tokens: seq<string>): AddressSpec {
    seq(|tokens|, k requires 0 <= k < |tokens| => ParseToken(p, tokens[k]))
  }

  /** The comma or space separated tokens of an address string, in order. */
  function Parsed(p: Parser, text: string): AddressSpec {
    ParseTokens(p, Cidrs(text))
  }

  function AllParsed(p: Parser, texts: seq<string>): (s: seq<AddressSpec>)
    ensures |s| == |texts| && forall i :: 0 <= i < |s| ==> s[i] == Parsed(p, texts[i])
  {
    seq(|texts|, i requires 0 <= i < |texts| => Parsed(p, texts[i]))
  }
}
