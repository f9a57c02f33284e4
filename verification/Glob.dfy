/**
 The access-list matcher: email globs in which `*` stands for any run of bytes
 and `?` for one byte.

 `Matches` is the semantics the documentation promises.  `LiteralFirst` is what
 the two-index loop computes: it tests "same byte" before "pattern byte is `*`",
 so a `*` in the pattern that meets a `*` in the text stands for that byte only.
 The loop is proved equal to `LiteralFirst` on every input; the lemmas then say
 where the two semantics agree.
 */
module Glob {
  import opened Arithmetic
  import opened Wrappers

  newtype Byte = x: int | 0 <= x < 256
  type Text = seq<Byte>

  const STAR: Byte := 42
  const QUESTION: Byte := 63

  // ---- Semantics ----

  predicate AllStars(pat: Text) {
    forall j :: 0 <= j < |pat| ==> pat[j] == STAR
  }

  /** A pattern byte that can stand for the text byte `b` without being a wildcard run. */
  predicate Literal(p: Byte, b: Byte) {
    p == QUESTION || p == b
  }

  predicate Matches(pat: Text, s: Text)
    decreases |pat|
  {
    if pat == [] then s == []
    else if pat[0] == STAR then exists k :: 0 <= k <= |s| && Matches(pat[1..], s[k..])
    else s != [] && Literal(pat[0], s[0]) && Matches(pat[1..], s[1..])
  }

  predicate LiteralFirst(pat: Text, s: Text)
    decreases |pat|
  {
    if s == [] then AllStars(pat)
    else if pat == [] then false
    else if Literal(pat[0], s[0]) then LiteralFirst(pat[1..], s[1..])
    else pat[0] == STAR && exists k :: 0 <= k <= |s| && LiteralFirst(pat[1..], s[k..])
  }

  // ---- The loop ----

  /** Some restart strictly after `mark` still lets the pattern from `a` match. */
  ghost predicate Later(pat: Text, s: Text, a: nat, mark: nat)
    requires a <= |pat|
  {
    exists k :: mark < k <= |s| && LiteralFirst(pat[a..], s[k..])
  }

  /** The pattern bytes from `a` up to `pi` meet the text bytes from `mark` one for one. */
  ghost predicate Aligned(pat: Text, s: Text, a: nat, pi: nat, mark: nat) {
    && a <= pi <= |pat|
    && mark + (pi - a) <= |s|
    && forall j :: a <= j < pi ==> Literal(pat[j], s[mark + (j - a)])
  }

  /**
   Why only the last `*` has to be remembered.  If the stretch `pat[a..pi]` can be
   laid on the text at `mark`, then no match of `pat[a..]` that starts at or after
   `mark` reaches `pi` earlier than that stretch does.
   */
  lemma {:induction false} EarliestStretch(pat: Text, s: Text, a: nat, pi: nat, mark: nat, k: nat)
    requires Aligned(pat, s, a, pi, mark)
    requires mark <= k <= |s|
    requires LiteralFirst(pat[a..], s[k..])
    ensures exists q :: mark + (pi - a) <= q <= |s| && LiteralFirst(pat[pi..], s[q..])
    decreases pi - a
  {
    if a == pi {
    } else if k == |s| {
      assert AllStars(pat[pi..]) by {
        forall j | 0 <= j < |pat[pi..]| ensures pat[pi..][j] == STAR {
          assert pat[pi..][j] == pat[a..][pi - a + j];
        }
      }
      assert s[|s|..] == [];
    } else {
      assert pat[a..][1..] == pat[a + 1..];
      assert Literal(pat[a], s[mark + (a - a)]);
      if Literal(pat[a], s[k]) {
        assert s[k..][1..] == s[k + 1..];
        EarliestStretch(pat, s, a + 1, pi, mark + 1, k + 1);
      } else {
        var d :| 0 <= d <= |s[k..]| && LiteralFirst(pat[a..][1..], s[k..][d..]);
        assert s[k..][d..] == s[k + d..];
        EarliestStretch(pat, s, a + 1, pi, mark + 1, k + d);
      }
    }
  }

  /** Taking a new `*` at `(pi, si)` makes every restart of the previous one redundant. */
  lemma {:induction false} NewStarSubsumes(pat: Text, s: Text, a: nat, pi: nat, mark: nat)
    requires Aligned(pat, s, a, pi, mark)
    requires pi < |pat| && pat[pi] == STAR
    requires Later(pat, s, a, mark)
    ensures exists k :: mark + (pi - a) <= k <= |s| && LiteralFirst(pat[pi + 1..], s[k..])
  {
    var k :| mark < k <= |s| && LiteralFirst(pat[a..], s[k..]);
    EarliestStretch(pat, s, a, pi, mark, k);
    var q :| mark + (pi - a) <= q <= |s| && LiteralFirst(pat[pi..], s[q..]);
    assert pat[pi..][1..] == pat[pi + 1..];
    if q == |s| {
      assert AllStars(pat[pi + 1..]);
      assert LiteralFirst(pat[pi + 1..], s[q..]);
    } else if Literal(pat[pi], s[q]) {
      assert s[q..][1..] == s[q + 1..];
    } else {
      var d :| 0 <= d <= |s[q..]| && LiteralFirst(pat[pi..][1..], s[q..][d..]);
      assert s[q..][d..] == s[q + d..];
    }
  }

  /** What one `*` leaves to try: here, or at a later start. */
  lemma StarSplits(pat: Text, s: Text, pi: nat, si: nat)
    requires pi < |pat| && si < |s|
    requires pat[pi] == STAR && s[si] != STAR
    ensures LiteralFirst(pat[pi..], s[si..])
       <==> LiteralFirst(pat[pi + 1..], s[si..]) || Later(pat, s, pi + 1, si)
  {
    assert pat[pi..][1..] == pat[pi + 1..];
    assert forall k :: 0 <= k <= |s[si..]| ==> s[si..][k..] == s[si + k..];
    if Later(pat, s, pi + 1, si) {
      var k :| si < k <= |s| && LiteralFirst(pat[pi + 1..], s[k..]);
      assert s[si..][k - si..] == s[k..];
    }
    if LiteralFirst(pat[pi + 1..], s[si..]) {
      assert s[si..][0..] == s[si..];
    }
  }

  /** What the loop variables mean: the current attempt or a later restart decides the answer. */
  ghost predicate Searching(pat: Text, s: Text, answer: bool, pi: nat, si: nat, star: Option<nat>, mark: nat) {
    && pi <= |pat|
    && mark <= si <= |s|
    && (star.Some? ==> (
      && star.value < pi
      && Aligned(pat, s, star.value + 1, pi, mark)
      && si == mark + (pi - (star.value + 1))))
    && (answer <==>
      || LiteralFirst(pat[pi..], s[si..])
      || (star.Some? && Later(pat, s, star.value + 1, mark)))
  }

  lemma StepLiteral(pat: Text, s: Text, answer: bool, pi: nat, si: nat, star: Option<nat>, mark: nat)
    requires Searching(pat, s, answer, pi, si, star, mark)
    requires pi < |pat| && si < |s| && Literal(pat[pi], s[si])
    ensures Searching(pat, s, answer, pi + 1, si + 1, star, mark)
  {
    assert pat[pi..][1..] == pat[pi + 1..];
    assert s[si..][1..] == s[si + 1..];
  }

  lemma RestartsCarryOver(pat: Text, s: Text, a: nat, pi: nat, mark: nat, si: nat)
    requires Aligned(pat, s, a, pi, mark) && si == mark + (pi - a)
    requires pi < |pat| && pat[pi] == STAR
    requires Later(pat, s, a, mark)
    ensures LiteralFirst(pat[pi + 1..], s[si..]) || Later(pat, s, pi + 1, si)
  {
    NewStarSubsumes(pat, s, a, pi, mark);
    var k :| si <= k <= |s| && LiteralFirst(pat[pi + 1..], s[k..]);
    if k > si {
      assert Later(pat, s, pi + 1, si);
    }
  }

  lemma StarDecides(pat: Text, s: Text, answer: bool, pi: nat, si: nat, star: Option<nat>, mark: nat)
    requires Searching(pat, s, answer, pi, si, star, mark)
    requires pi < |pat| && si < |s| && pat[pi] == STAR && s[si] != STAR
    ensures answer <==> LiteralFirst(pat[pi + 1..], s[si..]) || Later(pat, s, pi + 1, si)
  {
    StarSplits(pat, s, pi, si);
    if star.Some? && Later(pat, s, star.value + 1, mark) {
      RestartsCarryOver(pat, s, star.value + 1, pi, mark, si);
    }
  }

  lemma StepStar(pat: Text, s: Text, answer: bool, pi: nat, si: nat, star: Option<nat>, mark: nat)
    requires Searching(pat, s, answer, pi, si, star, mark)
    requires pi < |pat| && si < |s| && pat[pi] == STAR && s[si] != STAR
    ensures Searching(pat, s, answer, pi + 1, si, Some(pi), si)
  {
    StarDecides(pat, s, answer, pi, si, star, mark);
  }

  lemma StepRestart(pat: Text, s: Text, answer: bool, pi: nat, si: nat, star: Option<nat>, mark: nat)
    requires Searching(pat, s, answer, pi, si, star, mark)
    requires si < |s| && star.Some?
    requires pi < |pat| ==> !Literal(pat[pi], s[si]) && pat[pi] != STAR
    ensures Searching(pat, s, answer, star.value + 1, mark + 1, star, mark + 1)
  {
    Mismatch(pat, s, pi, si);
    NextRestart(pat, s, star.value + 1, mark);
  }

  lemma Mismatch(pat: Text, s: Text, pi: nat, si: nat)
    requires pi <= |pat| && si < |s|
    requires pi < |pat| ==> !Literal(pat[pi], s[si]) && pat[pi] != STAR
    ensures !LiteralFirst(pat[pi..], s[si..])
  {
  }

  lemma NextRestart(pat: Text, s: Text, a: nat, mark: nat)
    requires a <= |pat| && mark < |s|
    ensures Later(pat, s, a, mark) <==> LiteralFirst(pat[a..], s[mark + 1..]) || Later(pat, s, a, mark + 1)
  {
  }

  lemma NoRestartLeft(pat: Text, s: Text, answer: bool, pi: nat, si: nat, mark: nat)
    requires Searching(pat, s, answer, pi, si, None, mark) && si < |s|
    requires pi < |pat| ==> !Literal(pat[pi], s[si]) && pat[pi] != STAR
    ensures !answer
  {
    Mismatch(pat, s, pi, si);
  }

  lemma SearchStarts(pat: Text, s: Text)
    ensures Searching(pat, s, LiteralFirst(pat, s), 0, 0, None, 0)
  {
    assert pat[0..] == pat && s[0..] == s;
  }

  lemma StarsLeft(pat: Text, pi: nat)
    requires pi <= |pat|
    ensures pi < |pat| && pat[pi] == STAR ==> (AllStars(pat[pi..]) <==> AllStars(pat[pi + 1..]))
    ensures pi < |pat| && pat[pi] != STAR ==> !AllStars(pat[pi..])
    ensures pi == |pat| ==> AllStars(pat[pi..])
  {
    if pi < |pat| {
      assert pat[pi..] == [pat[pi]] + pat[pi + 1..];
      assert pat[pi..][0] == pat[pi];
    }
  }

  lemma TextExhausted(pat: Text, s: Text, answer: bool, pi: nat, star: Option<nat>, mark: nat)
    requires Searching(pat, s, answer, pi, |s|, star, mark)
    ensures answer <==> AllStars(pat[pi..])
  {
    if star.Some? && Later(pat, s, star.value + 1, mark) {
      var k :| mark < k <= |s| && LiteralFirst(pat[star.value + 1..], s[k..]);
      EarliestStretch(pat, s, star.value + 1, pi, mark, k);
    }
  }

  /** Strictly falls in every iteration, although both indices can move back. */
  ghost function Potential(pat: Text, s: Text, pi: nat, mark: nat): nat
    requires pi <= |pat| && mark <= |s|
  {
    Times(|s| - mark, |pat| + 1) + (|pat| - pi)
  }

  lemma PotentialFalls(pat: Text, s: Text, pi: nat, mark: nat, pi': nat, mark': nat)
    requires pi <= |pat| && pi' <= |pat| && mark <= mark' <= |s|
    requires mark < mark' || pi < pi'
    ensures Potential(pat, s, pi', mark') < Potential(pat, s, pi, mark)
  {
    if mark < mark' {
      TimesGrows(|s| - mark', |s| - mark, |pat| + 1);
    }
  }

  /** The main loop: walks the text, restarting at the last `*`; `None` means no match. */
  method ScanText(pat: Text, s: Text) returns (end: Option<nat>, ghost left: nat, ghost steps: nat)
    ensures end.None? ==> !LiteralFirst(pat, s)
    ensures end.Some? ==> end.value <= |pat| && (LiteralFirst(pat, s) <==> AllStars(pat[end.value..]))
    ensures end.Some? ==> left >= |pat| - end.value
    ensures steps + left <= Potential(pat, s, 0, 0)
  {
    var pi: nat, si: nat := 0, 0;
    var star: Option<nat>, mark: nat := None, 0;
    steps := 0;
    ghost var answer := LiteralFirst(pat, s);
    SearchStarts(pat, s);
    while si < |s|
      invariant Searching(pat, s, answer, pi, si, star, mark)
      invariant steps + Potential(pat, s, pi, mark) <= Potential(pat, s, 0, 0)
      decreases Potential(pat, s, pi, mark)
    {
      steps := steps + 1;
      if pi < |pat| && (pat[pi] == QUESTION || pat[pi] == s[si]) {
        StepLiteral(pat, s, answer, pi, si, star, mark);
        PotentialFalls(pat, s, pi, mark, pi + 1, mark);
        pi := pi + 1;
        si := si + 1;
      } else if pi < |pat| && pat[pi] == STAR {
        StepStar(pat, s, answer, pi, si, star, mark);
        PotentialFalls(pat, s, pi, mark, pi + 1, si);
        star := Some(pi);
        mark := si;
        pi := pi + 1;
      } else if star.Some? {
        StepRestart(pat, s, answer, pi, si, star, mark);
        PotentialFalls(pat, s, pi, mark, star.value + 1, mark + 1);
        pi := star.value + 1;
        mark := mark + 1;
        si := mark;
      } else {
        NoRestartLeft(pat, s, answer, pi, si, mark);
        PotentialFalls(pat, s, pi, mark, |pat|, |s|);
        return None, 0, steps;
      }
    }
    TextExhausted(pat, s, answer, pi, star, mark);
    return Some(pi), Potential(pat, s, pi, mark), steps;
  }

  /**
   The matcher: the main loop, then the `*`s left at the end of the pattern.  `steps`
   counts the iterations of both loops: although both indices move backwards, it stays
   below `(|s| + 1) * (|pat| + 1)`.
   */
  method GlobMatch(pat: Text, s: Text) returns (matched: bool, ghost steps: nat)
    ensures matched <==> LiteralFirst(pat, s)
    ensures steps < (|s| + 1) * (|pat| + 1)
  {
    TimesIsProduct(|s| + 1, |pat| + 1);
    var end;
    ghost var left;
    end, left, steps := ScanText(pat, s);
    if end.None? {
      return false, steps;
    }
    var pi: nat := end.value;
    ghost var budget := steps + |pat| - pi;
    while pi < |pat| && pat[pi] == STAR
      invariant pi <= |pat|
      invariant LiteralFirst(pat, s) <==> AllStars(pat[pi..])
      invariant steps + |pat| - pi == budget
    {
      StarsLeft(pat, pi);
      pi := pi + 1;
      steps := steps + 1;
    }
    StarsLeft(pat, pi);
    return pi == |pat|, steps;
  }
}
