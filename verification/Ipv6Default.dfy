/** Forcing an IPv6 network into a specification: exactly when it works. */
module Ipv6Default {
  import opened Store
  import opened Strings
  import opened Wrappers
  import Ini
  import Tokens
  import Cidr

  const SUBNET_SEPARATORS: set<char> := {',', ' ', '\t'}

  predicate AllParse(env: Env, spec: string) {
    forall k :: 0 <= k < |SubnetTokens(spec)| ==> env.family(SubnetTokens(spec)[k]).Some?
  }

  /** A default network: one token, and an IPv6 one. */
  predicate IsV6Token(env: Env, d: string) {
    d != "" && Trim(d) == d && Free(d, SUBNET_SEPARATORS) && env.family(d) == Some(Cidr.V6)
  }

  // ---- Trimming a specification keeps its tokens ----

  lemma {:induction false} TrimEndSpace(x: string, c: char)
    requires IsSpace(c)
    ensures Trim(x + [c]) == Trim(x)
  {
    if x == "" {
      assert x + [c] == [c] && [c][1..] == "";
    } else if IsSpace(x[0]) {
      assert (x + [c])[1..] == x[1..] + [c];
      TrimEndSpace(x[1..], c);
    } else {
      assert (x + [c])[..|x|] == x;
    }
  }

  lemma OnePiece(t: string)
    ensures NonEmptyTrimmed([t]) == if Trim(t) == "" then [] else [Trim(t)]
  {
    assert [t][1..] == [];
  }

  lemma LastTrimmedAlike(init: seq<string>, a: string, b: string)
    requires Trim(a) == Trim(b)
    ensures NonEmptyTrimmed(init + [a]) == NonEmptyTrimmed(init + [b])
  {
    Tokens.TokensConcat(init, [a]);
    Tokens.TokensConcat(init, [b]);
    OnePiece(a);
    OnePiece(b);
  }

  /** White space or a comma at the end adds no token. */
  lemma EndAddsNothing(s: string, c: char)
    requires IsSpace(c) || c == ','
    ensures SubnetTokens(s + [c]) == SubnetTokens(s)
  {
    var p := Split(s, SUBNET_SEPARATORS);
    if c in SUBNET_SEPARATORS {
      assert s + [c] + "" == s + [c];
      Ini.SplitAppend(s, "", SUBNET_SEPARATORS, c);
      Tokens.TokensConcat(p, [""]);
      OnePiece("");
    } else {
      Ini.LastPieceExtends(s, [c], SUBNET_SEPARATORS);
      TrimEndSpace(p[|p| - 1], c);
      LastTrimmedAlike(p[..|p| - 1], p[|p| - 1] + [c], p[|p| - 1]);
      assert p[..|p| - 1] + [p[|p| - 1]] == p;
    }
  }

  /** White space at the front adds no token. */
  lemma FrontAddsNothing(s: string)
    requires s != "" && IsSpace(s[0])
    ensures SubnetTokens(s) == SubnetTokens(s[1..])
  {
    var rest := Split(s[1..], SUBNET_SEPARATORS);
    if s[0] in SUBNET_SEPARATORS {
      Tokens.TokensConcat([""], rest);
      OnePiece("");
    } else {
      var first := [s[0]] + rest[0];
      assert first[1..] == rest[0];
      Tokens.TokensConcat([first], rest[1..]);
      Tokens.TokensConcat([rest[0]], rest[1..]);
      OnePiece(first);
      OnePiece(rest[0]);
      assert [rest[0]] + rest[1..] == rest;
    }
  }

  lemma {:induction false} TrimLeftKeepsTokens(s: string)
    ensures SubnetTokens(TrimLeft(s)) == SubnetTokens(s)
  {
    if s != "" && IsSpace(s[0]) {
      FrontAddsNothing(s);
      TrimLeftKeepsTokens(s[1..]);
    }
  }

  lemma {:induction false} TrimRightKeepsTokens(s: string)
    ensures SubnetTokens(TrimRight(s)) == SubnetTokens(s)
  {
    if s != "" && IsSpace(s[|s| - 1]) {
      assert s[..|s| - 1] + [s[|s| - 1]] == s;
      EndAddsNothing(s[..|s| - 1], s[|s| - 1]);
      TrimRightKeepsTokens(s[..|s| - 1]);
    }
  }

  lemma {:induction false} TrimCommasKeepsTokens(s: string)
    ensures SubnetTokens(TrimCommas(s)) == SubnetTokens(s)
  {
    if s != "" && s[|s| - 1] == ',' {
      assert s[..|s| - 1] + [','] == s;
      EndAddsNothing(s[..|s| - 1], ',');
      TrimCommasKeepsTokens(s[..|s| - 1]);
    }
  }

  lemma TrimKeepsTokens(s: string)
    ensures SubnetTokens(Trim(s)) == SubnetTokens(s)
  {
    TrimLeftKeepsTokens(s);
    TrimRightKeepsTokens(TrimLeft(s));
  }

  // ---- What forcing does ----

  lemma OneToken(d: string)
    requires d != "" && Trim(d) == d && Free(d, SUBNET_SEPARATORS)
    ensures SubnetTokens(d) == [d]
  {
    Ini.SplitFree(d, SUBNET_SEPARATORS);
    OnePiece(d);
  }

  lemma AppendedToken(t: string, d: string)
    requires d != "" && Trim(d) == d && Free(d, SUBNET_SEPARATORS)
    ensures SubnetTokens(t + ", " + d) == SubnetTokens(t) + [d]
  {
    assert t + ", " + d == (t + [',']) + [' '] + d;
    Ini.SplitAppend(t + [','], d, SUBNET_SEPARATORS, ' ');
    Tokens.TokensConcat(Split(t + [','], SUBNET_SEPARATORS), [d]);
    OnePiece(d);
    EndAddsNothing(t, ',');
  }

  /** Every token is kept in order, and the default is added last when there was no IPv6 network. */
  lemma ForcedTokens(env: Env, spec: string, d: string)
    requires IsV6Token(env, d)
    ensures SubnetTokens(EnsureIpv6(env, spec, d))
         == SubnetTokens(spec)
            + (if AllParse(env, spec) && exists t :: t in SubnetTokens(spec) && env.family(t) == Some(Cidr.V6)
               then [] else [d])
  {
    var inner := TrimCommas(Trim(spec));
    TrimKeepsTokens(spec);
    TrimCommasKeepsTokens(Trim(spec));
    TrimKeepsTokens(inner);
    if Trim(inner) == "" {
      OneToken(d);
      Ini.SplitFree("", SUBNET_SEPARATORS);
      OnePiece("");
    } else {
      AppendedToken(Trim(inner), d);
    }
  }

  /** The result has an IPv6 network exactly when every token of the specification parses. */
  lemma ForcingWorks(env: Env, spec: string, d: string)
    requires IsV6Token(env, d)
    ensures HasIpv6(env, EnsureIpv6(env, spec, d)) <==> AllParse(env, spec)
  {
    ForcedTokens(env, spec, d);
    var before, after := SubnetTokens(spec), SubnetTokens(EnsureIpv6(env, spec, d));
    assert forall k :: 0 <= k < |before| ==> after[k] == before[k];
    if !HasIpv6(env, spec) {
      assert after[|before|] == d;
    }
  }

  /** Forcing twice is forcing once exactly when every token parses; otherwise the default piles up. */
  lemma ForcingTwice(env: Env, spec: string, d: string)
    requires IsV6Token(env, d)
    ensures var once := EnsureIpv6(env, spec, d);
            EnsureIpv6(env, once, d) == once <==> AllParse(env, spec)
  {
    var once := EnsureIpv6(env, spec, d);
    ForcingWorks(env, spec, d);
    ForcedTokens(env, once, d);
  }
}
