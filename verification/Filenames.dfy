/** File names offered for download: their stem becomes a tunnel name of at most 15 characters. */
module Filenames {
  import opened Sequences
  import opened Strings
  import opened Wrappers
  import Tokens

  const WG_NAME_MAX := 15

  predicate Safe(c: char) {
    'a' <= c <= 'z' || 'A' <= c <= 'Z' || '0' <= c <= '9' || c == '-' || c == '_' || c == '.'
  }

  predicate AllSafe(s: string) {
    forall k :: 0 <= k < |s| ==> Safe(s[k])
  }

  /** Neither end is one of the given characters. */
  predicate Bare(s: string, edge: set<char>) {
    s != "" ==> s[0] !in edge && s[|s| - 1] !in edge
  }

  function TrimFront(s: string, edge: set<char>): (t: string)
    ensures t != "" ==> t[0] !in edge
    ensures |t| <= |s| && forall k :: 0 <= k < |t| ==> t[k] == s[|s| - |t| + k]
  {
    if s != "" && s[0] in edge then TrimFront(s[1..], edge) else s
  }

  function TrimBack(s: string, edge: set<char>): (t: string)
    ensures t <= s
    ensures t != "" ==> t[|t| - 1] !in edge
  {
    if s != "" && s[|s| - 1] in edge then TrimBack(s[..|s| - 1], edge) else s
  }

  function TrimEdges(s: string, edge: set<char>): (t: string)
    ensures |t| <= |s|
  {
    TrimBack(TrimFront(s, edge), edge)
  }

  lemma EdgesTrimmed(s: string, edge: set<char>)
    ensures Bare(TrimEdges(s, edge), edge)
  {
    var front := TrimFront(s, edge);
    var t := TrimBack(front, edge);
    if t != "" {
      assert t[0] == front[0];
    }
  }

  lemma TrimmingKeepsSafe(s: string, edge: set<char>)
    requires AllSafe(s)
    ensures AllSafe(TrimEdges(s, edge))
  {
  }

  // ---- One part ----

  /** Safe characters are kept; each run of other characters becomes one dash. */
  function Squeeze(s: string): (r: string)
    ensures AllSafe(r)
    ensures AllSafe(s) ==> r == s
  {
    if s == "" then ""
    else
      var init, c := s[..|s| - 1], s[|s| - 1];
      if Safe(c) then Squeeze(init) + [c]
      else if init != "" && !Safe(init[|init| - 1]) then Squeeze(init)
      else Squeeze(init) + "-"
  }

  function Sanitized(s: string): string {
    var t := TrimEdges(Squeeze(Trim(s)), {'-'});
    if t == "" then "device" else t
  }

  method SanitizeFilename(s: string) returns (r: string)
    ensures r == Sanitized(s)
  {
    var trimmed := Trim(s);
    var out, prevDash := "", false;
    for n := 0 to |trimmed|
      invariant out == Squeeze(trimmed[..n])
      invariant prevDash <==> n > 0 && !Safe(trimmed[n - 1])
    {
      var c := trimmed[n];
      assert trimmed[..n + 1][..n] == trimmed[..n];
      if Safe(c) {
        out := out + [c];
        prevDash := false;
      } else if !prevDash {
        out := out + "-";
        prevDash := true;
      }
    }
    assert trimmed[..|trimmed|] == trimmed;
    r := TrimEdges(out, {'-'});
    if r == "" {
      r := "device";
    }
  }

  /** A usable component: not empty, safe characters only, no dash at either end. */
  predicate Component(s: string) {
    s != "" && AllSafe(s) && Bare(s, {'-'})
  }

  lemma SanitizedIsComponent(s: string)
    ensures Component(Sanitized(s))
  {
    EdgesTrimmed(Squeeze(Trim(s)), {'-'});
    TrimmingKeepsSafe(Squeeze(Trim(s)), {'-'});
  }

  lemma {:induction false} NothingToTrim(s: string)
    requires AllSafe(s)
    ensures Trim(s) == s
  {
    assert s != "" ==> Safe(s[0]) && Safe(s[|s| - 1]);
  }

  /** Sanitising again changes nothing. */
  lemma SanitizingTwice(s: string)
    ensures Sanitized(Sanitized(s)) == Sanitized(s)
  {
    SanitizedIsComponent(s);
    NothingToTrim(Sanitized(s));
  }

  // ---- What trimming and squeezing do, apart from how ----

  lemma {:induction false} FrontTrimmed(s: string, t: string, edge: set<char>)
    requires Trimmed(TrimFront(s, edge), t, edge)
    ensures Trimmed(s, t, edge)
  {
    if s != "" && s[0] in edge {
      FrontTrimmed(s[1..], t, edge);
      BlankInFront(s, t, edge);
    }
  }

  lemma {:induction false} BackTrimmed(s: string, edge: set<char>)
    requires s != "" ==> s[0] !in edge
    ensures Trimmed(s, TrimBack(s, edge), edge)
  {
    if s != "" && s[|s| - 1] in edge {
      assert |s| > 1;
      BackTrimmed(s[..|s| - 1], edge);
      BlankAtBack(s, TrimBack(s, edge), edge);
    } else {
      NothingBlank(s, edge);
    }
  }

  lemma TrimEdgesIs(s: string, t: string, edge: set<char>)
    ensures Trimmed(s, t, edge) <==> t == TrimEdges(s, edge)
  {
    BackTrimmed(TrimFront(s, edge), edge);
    FrontTrimmed(s, TrimEdges(s, edge), edge);
    if Trimmed(s, t, edge) {
      TrimmedUnique(s, t, TrimEdges(s, edge), edge);
    }
  }

  /** By code: ASCII letters and digits, underscore and full stop. */
  predicate TellingChar(c: char) {
    var n := c as int;
    97 <= n <= 122 || 65 <= n <= 90 || 48 <= n <= 57 || n == 95 || n == 46
  }

  predicate AllForeign(s: string) {
    forall k :: 0 <= k < |s| ==> !TellingChar(s[k]) && s[k] != '-'
  }

  lemma SafeIs(c: char)
    ensures Safe(c) <==> TellingChar(c) || c == '-'
  {
  }

  lemma {:induction false} SqueezeNext(s: string, c: char)
    ensures Squeeze(s + [c]) ==
      if Safe(c) then Squeeze(s) + [c] else if s != "" && !Safe(s[|s| - 1]) then Squeeze(s) else Squeeze(s) + "-"
  {
    var t := s + [c];
    assert t[..|t| - 1] == s && t[|t| - 1] == c;
  }

  /** A character of its own, which no run of foreign ones includes. */
  predicate Own(c: char) {
    TellingChar(c) || c == '-'
  }

  lemma {:induction false} RunSqueezed(a: string, run: string)
    requires run != "" && AllForeign(run) && (a != "" ==> Own(a[|a| - 1]))
    ensures Squeeze(a + run) == Squeeze(a) + "-"
  {
    var init, c := run[..|run| - 1], run[|run| - 1];
    assert a + run == (a + init) + [c];
    SqueezeNext(a + init, c);
    SafeIs(c);
    if init == "" {
      assert a + init == a;
      if a != "" {
        SafeIs(a[|a| - 1]);
      }
    } else {
      SafeIs(init[|init| - 1]);
      RunSqueezed(a, init);
    }
  }

  /** Squeezing: a run of characters other than letters, digits, `_`, `.` and the dash becomes one dash. */
  lemma {:induction false} SqueezeRuns(a: string, run: string, b: string)
    requires run != "" && AllForeign(run)
    requires (a != "" ==> Own(a[|a| - 1])) && (b != "" ==> Own(b[0]))
    ensures Squeeze(a + run + b) == Squeeze(a) + "-" + Squeeze(b)
  {
    if b == "" {
      assert a + run + b == a + run && Squeeze(a) + "-" + "" == Squeeze(a) + "-";
      RunSqueezed(a, run);
    } else {
      SqueezeRuns(a, run, b[..|b| - 1]);
      LastSqueezed(a + run, b, Squeeze(a) + "-");
    }
  }

  lemma LastSqueezed(front: string, b: string, done: string)
    requires b != "" && Own(b[0]) && Squeeze(front + b[..|b| - 1]) == done + Squeeze(b[..|b| - 1])
    ensures Squeeze(front + b) == done + Squeeze(b)
  {
    var init, c := b[..|b| - 1], b[|b| - 1];
    assert front + b == (front + init) + [c] && b == init + [c];
    SqueezeNext(front + init, c);
    SqueezeNext(init, c);
    if init == "" {
      SafeIs(b[0]);
    } else {
      assert (front + init)[|front + init| - 1] == init[|init| - 1];
    }
  }

  /**
   A sanitised label: without white space at its ends, every run of foreign characters one
   dash, no dashes at its ends, and the fallback name if nothing is left.
   */
  lemma SanitizedIs(s: string, trimmed: string, r: string)
    requires Trimmed(s, trimmed, Tokens.BLANKS) && Trimmed(Squeeze(trimmed), r, {'-'})
    ensures Sanitized(s) == if r == "" then "device" else r
  {
    Tokens.TrimIs(s, trimmed);
    TrimEdgesIs(Squeeze(trimmed), r, {'-'});
  }

  /** The characters that say something: letters, digits, `_` and `.`. */
  function Telling(s: string): string {
    if s == "" then ""
    else
      var c := s[|s| - 1];
      Telling(s[..|s| - 1]) + (if TellingChar(c) then [c] else "")
  }

  lemma {:induction false} SqueezeKeepsTelling(s: string)
    ensures Telling(Squeeze(s)) == Telling(s)
  {
    if s != "" {
      var init, c := s[..|s| - 1], s[|s| - 1];
      SqueezeKeepsTelling(init);
      assert (Squeeze(init) + [c])[..|Squeeze(init)|] == Squeeze(init);
      assert (Squeeze(init) + "-")[..|Squeeze(init)|] == Squeeze(init);
    }
  }

  lemma {:induction false} TrimRightKeepsTelling(s: string)
    ensures Telling(TrimRight(s)) == Telling(s)
  {
    if s != "" && IsSpace(s[|s| - 1]) {
      TrimRightKeepsTelling(s[..|s| - 1]);
    }
  }

  lemma {:induction false} TrimBackKeepsTelling(s: string)
    ensures Telling(TrimBack(s, {'-'})) == Telling(s)
  {
    if s != "" && s[|s| - 1] in {'-'} {
      TrimBackKeepsTelling(s[..|s| - 1]);
    }
  }

  lemma {:induction false} HeadUntold(s: string)
    requires s != "" && (!Safe(s[0]) || s[0] == '-')
    ensures Telling(s[1..]) == Telling(s)
  {
    if |s| > 1 {
      var init := s[..|s| - 1];
      HeadUntold(init);
      assert s[1..][..|s| - 2] == init[1..];
    }
  }

  lemma {:induction false} TrimLeftKeepsTelling(s: string)
    ensures Telling(TrimLeft(s)) == Telling(s)
  {
    if s != "" && IsSpace(s[0]) {
      HeadUntold(s);
      TrimLeftKeepsTelling(s[1..]);
    }
  }

  lemma {:induction false} TrimFrontKeepsTelling(s: string)
    ensures Telling(TrimFront(s, {'-'})) == Telling(s)
  {
    if s != "" && s[0] in {'-'} {
      HeadUntold(s);
      TrimFrontKeepsTelling(s[1..]);
    }
  }

  /**
   Sanitising loses nothing that could be kept: letters, digits, `_` and `.` stay, in
   order, and the fallback name is used exactly for labels without a telling character.
   */
  lemma SanitizingKeepsTelling(s: string)
    ensures Telling(s) != "" ==> Telling(Sanitized(s)) == Telling(s)
    ensures Telling(s) == "" ==> Sanitized(s) == "device"
  {
    var t := Squeeze(Trim(s));
    TrimLeftKeepsTelling(s);
    TrimRightKeepsTelling(TrimLeft(s));
    SqueezeKeepsTelling(Trim(s));
    TrimFrontKeepsTelling(t);
    TrimBackKeepsTelling(TrimFront(t, {'-'}));
    EdgesTrimmed(t, {'-'});
    TrimmingKeepsSafe(t, {'-'});
    ComponentTells(TrimEdges(t, {'-'}));
  }

  lemma ComponentTells(s: string)
    requires AllSafe(s) && Bare(s, {'-'})
    ensures s != "" ==> Telling(s) != ""
  {
    if s != "" {
      assert s[|s| - 1] !in {'-'};
    }
  }

  // ---- Two parts in one budget ----

  /** How many characters each part may keep: an even share, the slack of a short part going to the other. */
  function Shares(a: nat, b: nat, max: nat): (nat, nat) {
    var avail := if max > 0 then max - 1 else 0;
    var half := avail / 2;
    if a <= half then (a, avail - a)
    else if b <= avail - half then (avail - b, b)
    else (avail - half, half)
  }

  /**
   When the parts do not fit: the shares use up the budget but for the dash, never exceed
   the part they are for, and leave each part its even share if it has that much.
   */
  lemma SharesAreFair(a: nat, b: nat, max: nat)
    requires max >= 1 && a + 1 + b > max
    ensures var (x, y) := Shares(a, b, max);
            && x + y == max - 1
            && x <= a && y <= b
            && (x == a || x >= (max - 1) / 2) && (y == b || y >= (max - 1) / 2)
            && (x < a && y < b ==> y == (max - 1) / 2)
  {
  }

  const SEPARATORS := {'-', '_', '.'}

  function Min(a: nat, b: nat): nat {
    if a < b then a else b
  }

  function JoinParts(x: string, y: string): string {
    if x != "" && y != "" then x + "-" + y
    else if x != "" then x
    else if y != "" then y
    else "device"
  }

  function FitTwo(a: string, b: string, max: nat): string {
    if |a| + 1 + |b| <= max then a + "-" + b
    else
      var (alen, blen) := Shares(|a|, |b|, max);
      JoinParts(TrimEdges(a[..Min(alen, |a|)], SEPARATORS), TrimEdges(b[..Min(blen, |b|)], SEPARATORS))
  }

  /** A tunnel name: 1 to `max` safe characters, no dash at either end. */
  predicate TunnelName(s: string, max: nat) {
    Component(s) && |s| <= max
  }

  lemma PartFits(a: string, n: nat)
    requires AllSafe(a) && n <= |a|
    ensures var x := TrimEdges(a[..n], SEPARATORS);
            |x| <= n && AllSafe(x) && Bare(x, {'-'})
  {
    EdgesTrimmed(a[..n], SEPARATORS);
    TrimmingKeepsSafe(a[..n], SEPARATORS);
  }

  lemma Joined(x: string, y: string)
    requires Component(x) && Component(y)
    ensures Component(x + "-" + y) && |x + "-" + y| == |x| + 1 + |y|
  {
    var j := x + "-" + y;
    forall k | 0 <= k < |j| ensures Safe(j[k]) {
      assert j[k] == if k < |x| then x[k] else if k == |x| then '-' else y[k - |x| - 1];
    }
    assert j[|j| - 1] == y[|y| - 1];
  }

  lemma JoinedPartsFit(x: string, y: string, max: nat)
    requires AllSafe(x) && Bare(x, {'-'}) && AllSafe(y) && Bare(y, {'-'})
    requires |x| + |y| <= max - 1 && max >= 6
    ensures TunnelName(JoinParts(x, y), max)
  {
    if x != "" && y != "" {
      Joined(x, y);
    }
  }

  /** Any two components fit into any budget that holds the fallback name. */
  lemma FitTwoFits(a: string, b: string, max: nat)
    requires Component(a) && Component(b) && max >= 6
    ensures TunnelName(FitTwo(a, b, max), max)
  {
    if |a| + 1 + |b| <= max {
      Joined(a, b);
    } else {
      SharesAreFair(|a|, |b|, max);
      var (alen, blen) := Shares(|a|, |b|, max);
      PartFits(a, alen);
      PartFits(b, blen);
      JoinedPartsFit(TrimEdges(a[..alen], SEPARATORS), TrimEdges(b[..blen], SEPARATORS), max);
    }
  }

  /** No separator in `s`. */
  predicate Solid(s: string) {
    forall k :: 0 <= k < |s| ==> s[k] !in SEPARATORS
  }

  lemma SolidFront(a: string, n: nat)
    requires Solid(a) && n <= |a|
    ensures TrimEdges(a[..n], SEPARATORS) == a[..n]
  {
  }

  lemma FitTwoJoins(a: string, b: string, max: nat)
    requires max >= 1 && |a| + 1 + |b| > max
    ensures var (x, y) := Shares(|a|, |b|, max);
            && x <= |a| && y <= |b|
            && FitTwo(a, b, max) == JoinParts(TrimEdges(a[..x], SEPARATORS), TrimEdges(b[..y], SEPARATORS))
  {
    SharesAreFair(|a|, |b|, max);
  }

  lemma SolidJoin(a: string, b: string, x: nat, y: nat, r: string)
    requires Solid(a) && Solid(b) && 0 < x <= |a| && 0 < y <= |b|
    requires r == JoinParts(TrimEdges(a[..x], SEPARATORS), TrimEdges(b[..y], SEPARATORS))
    ensures r == a[..x] + "-" + b[..y]
  {
    SolidFront(a, x);
    SolidFront(b, y);
  }

  /**
   Parts that do not fit but hold no separators fill the budget to the last character:
   a piece from the front of each, neither shorter than its even share unless it is whole.
   */
  lemma FitTwoUsesBudget(a: string, b: string, max: nat) returns (x: nat, y: nat)
    requires a != "" && b != "" && Solid(a) && Solid(b)
    requires max >= 3 && |a| + 1 + |b| > max
    ensures x <= |a| && y <= |b| && x + 1 + y == max
    ensures FitTwo(a, b, max) == a[..x] + "-" + b[..y]
    ensures (x == |a| || x >= (max - 1) / 2) && (y == |b| || y >= (max - 1) / 2)
  {
    var shares := Shares(|a|, |b|, max);
    x, y := shares.0, shares.1;
    SharesAreFair(|a|, |b|, max);
    FitTwoJoins(a, b, max);
    SolidJoin(a, b, x, y, FitTwo(a, b, max));
  }

  /**
   Any parts that do not fit: the front of each, as long as its share, without separators at
   its ends; the dash only if both are left, and the fallback name if neither is.
   */
  lemma FitTwoCuts(a: string, b: string, max: nat) returns (x: nat, y: nat, u: string, v: string)
    requires max >= 1 && |a| + 1 + |b| > max
    ensures x <= |a| && y <= |b| && x + y == max - 1
    ensures (x == |a| || x >= (max - 1) / 2) && (y == |b| || y >= (max - 1) / 2)
    ensures Trimmed(a[..x], u, {'-', '_', '.'}) && Trimmed(b[..y], v, {'-', '_', '.'})
    ensures FitTwo(a, b, max)
         == if u == "" && v == "" then "device" else if u == "" then v else if v == "" then u else u + "-" + v
  {
    var shares := Shares(|a|, |b|, max);
    x, y := shares.0, shares.1;
    SharesAreFair(|a|, |b|, max);
    FitTwoJoins(a, b, max);
    u, v := TrimEdges(a[..x], SEPARATORS), TrimEdges(b[..y], SEPARATORS);
    TrimEdgesIs(a[..x], u, SEPARATORS);
    TrimEdgesIs(b[..y], v, SEPARATORS);
  }

  /** The bound on the budget is needed: the fallback name has six characters. */
  lemma FallbackNeedsSix(a: string, max: nat)
    requires 1 <= max < 6 && |a| >= max
    requires forall k :: 0 <= k < |a| ==> a[k] in SEPARATORS
    ensures FitTwo(a, a, max) == "device" && !TunnelName(FitTwo(a, a, max), max)
  {
    var (x, y) := Shares(|a|, |a|, max);
    SharesAreFair(|a|, |a|, max);
    OnlyEdges(a[..x], SEPARATORS);
    OnlyEdges(a[..y], SEPARATORS);
  }

  lemma {:induction false} OnlyEdges(s: string, edge: set<char>)
    requires forall k :: 0 <= k < |s| ==> s[k] in edge
    ensures TrimEdges(s, edge) == ""
  {
    if s != "" {
      OnlyEdges(s[1..], edge);
    }
  }

  /** The stem of the download: the interface's own base name or else its name, joined with the device name. */
  function DownloadStem(base: Option<string>, interfaceName: string, deviceName: string): string {
    var chosen := if base.Some? && Trim(base.value) != "" then Trim(base.value) else interfaceName;
    FitTwo(Sanitized(chosen), Sanitized(deviceName), WG_NAME_MAX)
  }

  lemma DownloadStemIsTunnelName(base: Option<string>, interfaceName: string, deviceName: string)
    ensures TunnelName(DownloadStem(base, interfaceName, deviceName), 15)
  {
    var chosen := if base.Some? && Trim(base.value) != "" then Trim(base.value) else interfaceName;
    SanitizedIsComponent(chosen);
    SanitizedIsComponent(deviceName);
    FitTwoFits(Sanitized(chosen), Sanitized(deviceName), WG_NAME_MAX);
  }

  /**
   The stem is the interface's download name, or its name if that is missing or blank, a
   dash and the device's name, each sanitised, whenever these take at most 15 characters.
   */
  lemma DownloadStemNames(base: Option<string>, interfaceName: string, deviceName: string, t: string)
    requires base.Some? ==> Trimmed(base.value, t, Tokens.BLANKS)
    ensures var first := Sanitized(if base == None || t == "" then interfaceName else t);
            |first| + 1 + |Sanitized(deviceName)| <= 15
            ==> DownloadStem(base, interfaceName, deviceName) == first + "-" + Sanitized(deviceName)
  {
    if base.Some? {
      Tokens.TrimIs(base.value, t);
    }
  }
}
