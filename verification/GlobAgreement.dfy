/** Where the matcher of `Glob` gives the answer its documentation promises. */
module GlobAgreement {
  import opened Glob
  import opened Sequences

  /** On every input: what the matcher accepts does match. */
  lemma {:induction false} Sound(pat: Text, s: Text)
    requires LiteralFirst(pat, s)
    ensures Matches(pat, s)
    decreases |pat|
  {
    if s == [] {
      if pat != [] {
        Sound(pat[1..], []);
        assert s[0..] == [];
      }
    } else if Literal(pat[0], s[0]) {
      Sound(pat[1..], s[1..]);
    } else {
      var k :| 0 <= k <= |s| && LiteralFirst(pat[1..], s[k..]);
      Sound(pat[1..], s[k..]);
    }
  }

  /** On texts without a `*`: whatever matches is accepted. */
  lemma {:induction false} Complete(pat: Text, s: Text)
    requires STAR !in s
    requires Matches(pat, s)
    ensures LiteralFirst(pat, s)
    decreases |pat|
  {
    if pat == [] {
    } else if pat[0] == STAR {
      var k :| 0 <= k <= |s| && Matches(pat[1..], s[k..]);
      Complete(pat[1..], s[k..]);
    } else {
      Complete(pat[1..], s[1..]);
    }
  }

  /** With a pattern that has no `*` the two semantics are the same test, whatever the text. */
  lemma {:induction false} CompleteWithoutWildcard(pat: Text, s: Text)
    requires STAR !in pat
    requires Matches(pat, s)
    ensures LiteralFirst(pat, s)
    decreases |pat|
  {
    if pat != [] {
      CompleteWithoutWildcard(pat[1..], s[1..]);
    }
  }

  lemma {:induction false} MatchesItself(pat: Text)
    ensures Matches(pat, pat)
  {
    if pat != [] {
      MatchesItself(pat[1..]);
      assert pat[0] == STAR ==> 0 <= 1 <= |pat| && Matches(pat[1..], pat[1..]);
    }
  }

  /** A literal stretch in front of both sides is consumed by both semantics alike. */
  lemma {:induction false} SamePrefix(pre: Text, pat: Text, s: Text)
    requires STAR !in pre
    ensures Matches(pre + pat, pre + s) <==> Matches(pat, s)
    decreases |pre|
  {
    if pre == [] {
      assert pre + pat == pat && pre + s == s;
    } else {
      assert (pre + pat)[1..] == pre[1..] + pat && (pre + s)[1..] == pre[1..] + s;
      SamePrefix(pre[1..], pat, s);
    }
  }

  /** The matcher walks a pattern down its own text byte by byte, wildcards included. */
  lemma {:induction false} WalksItself(pre: Text, pat: Text, s: Text)
    requires s != []
    ensures LiteralFirst(pre + pat, pre + s) <==> LiteralFirst(pat, s)
    decreases |pre|
  {
    if pre == [] {
      assert pre + pat == pat && pre + s == s;
    } else {
      assert (pre + pat)[1..] == pre[1..] + pat && (pre + s)[1..] == pre[1..] + s;
      WalksItself(pre[1..], pat, s);
    }
  }

  function Questions(n: nat): (q: Text)
    ensures |q| == n && forall j :: 0 <= j < n ==> q[j] == QUESTION
  {
    seq(n, _ => QUESTION)
  }

  lemma {:induction false} QuestionsCount(n: nat, s: Text)
    ensures Matches(Questions(n), s) <==> n == |s|
    ensures LiteralFirst(Questions(n), s) <==> n == |s|
    decreases n
  {
    if n > 0 {
      assert Questions(n)[1..] == Questions(n - 1);
      assert Questions(n)[0] == QUESTION;
      if s != [] {
        QuestionsCount(n - 1, s[1..]);
      }
    }
  }

  lemma FirstStar(t: Text) returns (i: nat)
    requires STAR in t
    ensures i < |t| && t[i] == STAR && STAR !in t[..i]
  {
    i := 0;
    while t[i] != STAR
      invariant i < |t| && STAR in t[i..] && STAR !in t[..i]
      decreases |t| - i
    {
      assert t[i..] == [t[i]] + t[i + 1..];
      assert t[..i + 1] == t[..i] + [t[i]];
      i := i + 1;
    }
  }

  /** Every text holding a `*` is matched by some pattern that the matcher rejects it with. */
  lemma StarredTextIsLost(t: Text) returns (pat: Text)
    requires STAR in t
    ensures Matches(pat, t) && !LiteralFirst(pat, t)
  {
    var i := FirstStar(t);
    var pre, rest := t[..i], t[i..];
    var q := Questions(|rest|);
    pat := pre + ([STAR] + q);
    assert t == pre + rest;
    assert ([STAR] + q)[1..] == q;
    QuestionsCount(|rest|, rest);
    assert rest[0..] == rest;
    SamePrefix(pre, [STAR] + q, rest);
    WalksItself(pre, [STAR] + q, rest);
    QuestionsCount(|rest|, rest[1..]);
  }

  /** Every pattern holding a `*` matches some text that the matcher rejects. */
  lemma StarredPatternLoses(pat: Text) returns (t: Text)
    requires STAR in pat
    ensures Matches(pat, t) && !LiteralFirst(pat, t)
  {
    var i := FirstStar(pat);
    var pre, r := pat[..i], pat[i + 1..];
    var tail := if r == [] then [QUESTION] else r;
    t := pat + tail;
    assert pat == pre + ([STAR] + r);
    assert t == pre + ([STAR] + r + tail);
    SamePrefix(pre, [STAR] + r, [STAR] + r + tail);
    MatchesItself(r);
    var whole := [STAR] + r + tail;
    if r == [] {
      assert whole[2..] == [];
    } else {
      assert whole[|r| + 1..] == r;
    }
    assert ([STAR] + r)[1..] == r;
    WalksItself(pat, [], tail);
    assert pat + [] == pat;
  }

  ghost predicate Agree(pat: Text, s: Text) {
    LiteralFirst(pat, s) <==> Matches(pat, s)
  }

  /** A text is judged correctly under every pattern exactly when it has no `*`. */
  lemma TextJudgedCorrectly(s: Text)
    ensures (forall pat: Text :: Agree(pat, s)) <==> STAR !in s
  {
    if STAR in s {
      var pat := StarredTextIsLost(s);
      assert !Agree(pat, s);
    } else {
      forall pat: Text ensures Agree(pat, s) {
        if Matches(pat, s) { Complete(pat, s); }
        if LiteralFirst(pat, s) { Sound(pat, s); }
      }
    }
  }

  /** A pattern judges every text correctly exactly when it has no `*`. */
  lemma PatternJudgesCorrectly(pat: Text)
    ensures (forall s: Text :: Agree(pat, s)) <==> STAR !in pat
  {
    if STAR in pat {
      var s := StarredPatternLoses(pat);
      assert !Agree(pat, s);
    } else {
      forall s: Text ensures Agree(pat, s) {
        if Matches(pat, s) { CompleteWithoutWildcard(pat, s); }
        if LiteralFirst(pat, s) { Sound(pat, s); }
      }
    }
  }

  /** "`*` matches everyone" holds of every text but those that start with `*` and go on. */
  lemma EveryonePattern(s: Text)
    ensures Matches([STAR], s)
    ensures LiteralFirst([STAR], s) <==> |s| < 2 || s[0] != STAR
  {
    assert s[|s|..] == [];
    assert Matches([STAR][1..], s[|s|..]);
    if s != [] && s[0] != STAR {
      assert LiteralFirst([STAR][1..], s[|s|..]);
    }
  }

  // ---- Emails against a list of patterns ----

  predicate Blank(b: Byte) {
    b == 32 || 9 <= b <= 13
  }

  function TrimStart(t: Text): Text {
    if t != [] && Blank(t[0]) then TrimStart(t[1..]) else t
  }

  function TrimEnd(t: Text): Text {
    if t != [] && Blank(t[|t| - 1]) then TrimEnd(t[..|t| - 1]) else t
  }

  function Trim(t: Text): Text {
    TrimEnd(TrimStart(t))
  }

  function LowerByte(b: Byte): Byte {
    if 65 <= b <= 90 then b + 32 else b
  }

  function Lower(t: Text): (l: Text)
    ensures |l| == |t| && forall j :: 0 <= j < |t| ==> l[j] == LowerByte(t[j])
  {
    seq(|t|, j requires 0 <= j < |t| => LowerByte(t[j]))
  }

  predicate EmailMatches(patterns: seq<Text>, email: Text) {
    var e := Lower(email);
    exists i :: 0 <= i < |patterns| && LiteralFirst(Lower(Trim(patterns[i])), e)
  }

  /** The same byte, or the same ASCII letter in the other case. */
  predicate Alike(b: Byte, c: Byte) {
    b == c || (65 <= b <= 90 && c == b + 32) || (65 <= c <= 90 && b == c + 32)
  }

  lemma LoweredAlike(b: Byte, c: Byte)
    ensures LowerByte(b) == LowerByte(c) <==> Alike(b, c)
    ensures LowerByte(b) == 42 <==> b == 42
    ensures LowerByte(b) == 63 <==> b == 63
  {
  }

  /** Glob semantics in which a letter stands for itself in either case; `*` is byte 42 and `?` is 63. */
  predicate MatchesAnyCase(pat: Text, s: Text)
    decreases |pat|
  {
    if pat == [] then s == []
    else if pat[0] == 42 then exists k :: 0 <= k <= |s| && MatchesAnyCase(pat[1..], s[k..])
    else s != [] && (pat[0] == 63 || Alike(pat[0], s[0])) && MatchesAnyCase(pat[1..], s[1..])
  }

  lemma {:induction false} LoweringIgnoresCase(pat: Text, s: Text)
    ensures Matches(Lower(pat), Lower(s)) <==> MatchesAnyCase(pat, s)
    decreases |pat|
  {
    if pat != [] {
      assert Lower(pat)[1..] == Lower(pat[1..]);
      LoweredAlike(pat[0], 0);
      if pat[0] == STAR {
        forall k | 0 <= k <= |s|
          ensures Lower(s)[k..] == Lower(s[k..])
          ensures Matches(Lower(pat[1..]), Lower(s[k..])) <==> MatchesAnyCase(pat[1..], s[k..])
        {
          LoweringIgnoresCase(pat[1..], s[k..]);
        }
      } else if s != [] {
        assert Lower(s)[1..] == Lower(s[1..]);
        LoweredAlike(pat[0], s[0]);
        LoweringIgnoresCase(pat[1..], s[1..]);
      }
    }
  }

  /** ASCII white space. */
  const BLANKS: set<Byte> := {9, 10, 11, 12, 13, 32}

  lemma {:induction false} TrimStartIs(t: Text, u: Text)
    requires Trimmed(TrimStart(t), u, BLANKS)
    ensures Trimmed(t, u, BLANKS)
  {
    if t != [] && Blank(t[0]) {
      TrimStartIs(t[1..], u);
      BlankInFront(t, u, BLANKS);
    }
  }

  lemma {:induction false} TrimEndIs(t: Text)
    requires t != [] ==> t[0] !in BLANKS
    ensures Trimmed(t, TrimEnd(t), BLANKS)
  {
    if t != [] && Blank(t[|t| - 1]) {
      if t[..|t| - 1] == [] {
        assert false;
      }
      TrimEndIs(t[..|t| - 1]);
      BlankAtBack(t, TrimEnd(t), BLANKS);
    } else {
      NothingBlank(t, BLANKS);
    }
  }

  lemma {:induction false} TrimStartBare(t: Text)
    ensures TrimStart(t) != [] ==> TrimStart(t)[0] !in BLANKS
  {
    if t != [] && Blank(t[0]) {
      TrimStartBare(t[1..]);
    }
  }

  /** Trimming removes the white space at both ends and nothing else. */
  lemma TrimIs(t: Text, u: Text)
    ensures Trimmed(t, u, BLANKS) <==> u == Trim(t)
  {
    TrimStartBare(t);
    TrimEndIs(TrimStart(t));
    TrimStartIs(t, Trim(t));
    if Trimmed(t, u, BLANKS) {
      TrimmedUnique(t, u, Trim(t), BLANKS);
    }
  }

  /**
   An email without a `*` is admitted exactly when some pattern, without the white space at
   its ends, globs it with letters standing for themselves in either case.
   */
  lemma EmailAdmitted(patterns: seq<Text>, email: Text)
    requires 42 !in email
    ensures EmailMatches(patterns, email)
       <==> exists i, p :: 0 <= i < |patterns| && Trimmed(patterns[i], p, BLANKS) && MatchesAnyCase(p, email)
  {
    var e := Lower(email);
    forall j | 0 <= j < |email| ensures e[j] != STAR {
      LoweredAlike(email[j], 0);
    }
    forall i | 0 <= i < |patterns|
      ensures Trimmed(patterns[i], Trim(patterns[i]), BLANKS)
      ensures LiteralFirst(Lower(Trim(patterns[i])), e) <==> MatchesAnyCase(Trim(patterns[i]), email)
    {
      var p := Trim(patterns[i]);
      TrimIs(patterns[i], p);
      TextJudgedCorrectly(e);
      assert Agree(Lower(p), e);
      LoweringIgnoresCase(p, email);
    }
    if EmailMatches(patterns, email) {
      var i :| 0 <= i < |patterns| && LiteralFirst(Lower(Trim(patterns[i])), e);
      assert MatchesAnyCase(Trim(patterns[i]), email);
    } else if i, p :| 0 <= i < |patterns| && Trimmed(patterns[i], p, BLANKS) && MatchesAnyCase(p, email) {
      TrimIs(patterns[i], p);
    }
  }

  ghost predicate AllAlike(s: Text, t: Text) {
    |s| == |t| && forall j :: 0 <= j < |s| ==> Alike(s[j], t[j])
  }

  /** For every email, `*` or not: the case of its letters does not matter. */
  lemma CaseOfEmailIsIdle(patterns: seq<Text>, email: Text, other: Text)
    requires AllAlike(email, other)
    ensures EmailMatches(patterns, email) <==> EmailMatches(patterns, other)
  {
    forall j | 0 <= j < |email| ensures LowerByte(email[j]) == LowerByte(other[j]) {
      LoweredAlike(email[j], other[j]);
    }
    assert Lower(email) == Lower(other);
  }
}
