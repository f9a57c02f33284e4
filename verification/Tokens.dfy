/** What splitting and trimming do to a text, apart from how `Strings` computes it. */
module Tokens {
  import opened Sequences
  import opened Strings
  import Ini
  import Store

  /** White space: tab, line feed, vertical tab, form feed, carriage return, space. */
  const BLANKS: set<char> := {9 as char, 10 as char, 11 as char, 12 as char, 13 as char, ' '}

  lemma {:induction false} TrimLeftIs(s: string, t: string)
    requires Trimmed(TrimLeft(s), t, BLANKS)
    ensures Trimmed(s, t, BLANKS)
  {
    if s != [] && IsSpace(s[0]) {
      TrimLeftIs(s[1..], t);
      BlankInFront(s, t, BLANKS);
    }
  }

  lemma {:induction false} TrimRightIs(s: string)
    requires s != [] ==> s[0] !in BLANKS
    ensures Trimmed(s, TrimRight(s), BLANKS)
  {
    if s != [] && IsSpace(s[|s| - 1]) {
      assert |s| > 1;
      TrimRightIs(s[..|s| - 1]);
      BlankAtBack(s, TrimRight(s), BLANKS);
    } else {
      NothingBlank(s, BLANKS);
    }
  }

  /** Trimming removes the white space at both ends and nothing else. */
  lemma TrimIs(s: string, t: string)
    ensures Trimmed(s, t, BLANKS) <==> t == Trim(s)
  {
    TrimRightIs(TrimLeft(s));
    TrimLeftIs(s, Trim(s));
    if Trimmed(s, t, BLANKS) {
      TrimmedUnique(s, t, Trim(s), BLANKS);
    }
  }

  // ---- Lists of tokens ----

  lemma {:induction false} SplitConcat(a: string, sep: char, b: string, seps: set<char>)
    requires sep in seps
    ensures Split(a + [sep] + b, seps) == Split(a, seps) + Split(b, seps)
  {
    if a == "" {
      assert ([sep] + b)[1..] == b;
      assert "" + [sep] + b == [sep] + b;
    } else {
      assert (a + [sep] + b)[1..] == a[1..] + [sep] + b;
      SplitConcat(a[1..], sep, b, seps);
    }
  }

  lemma {:induction false} TokensConcat(a: seq<string>, b: seq<string>)
    ensures NonEmptyTrimmed(a + b) == NonEmptyTrimmed(a) + NonEmptyTrimmed(b)
  {
    if a == [] {
      assert a + b == b;
    } else {
      assert (a + b)[1..] == a[1..] + b;
      TokensConcat(a[1..], b);
    }
  }

  /** The tokens of a text: a separator separates, and what is free of separators is one token, or none if blank. */
  ghost predicate ListOf(tokens: string -> seq<string>, seps: set<char>) {
    && (forall a: string, c: char, b: string :: c in seps ==> tokens(a + [c] + b) == tokens(a) + tokens(b))
    && (forall s: string, t: string :: (forall k :: 0 <= k < |s| ==> s[k] !in seps) && Trimmed(s, t, BLANKS)
         ==> tokens(s) == if t == "" then [] else [t])
  }

  lemma TokensBy(tokens: string -> seq<string>, seps: set<char>)
    requires forall s: string :: tokens(s) == NonEmptyTrimmed(Split(s, seps))
    ensures ListOf(tokens, seps)
  {
    forall a: string, c: char, b: string | c in seps ensures tokens(a + [c] + b) == tokens(a) + tokens(b) {
      SplitConcat(a, c, b, seps);
      TokensConcat(Split(a, seps), Split(b, seps));
    }
    forall s: string, t: string | (forall k :: 0 <= k < |s| ==> s[k] !in seps) && Trimmed(s, t, BLANKS)
      ensures tokens(s) == if t == "" then [] else [t]
    {
      TrimIs(s, t);
      Ini.SplitFree(s, seps);
      assert [s][1..] == [] && NonEmptyTrimmed([]) == [];
      assert Split(s, seps) == [s] && tokens(s) == NonEmptyTrimmed([s]);
    }
  }

  /** Device and interface addresses are lists separated by commas and spaces. */
  lemma CidrsAreLists()
    ensures ListOf(Cidrs, {',', ' '})
  {
    TokensBy(Cidrs, {',', ' '});
  }

  /** Subnet specifications may also be separated by tabs. */
  lemma SubnetTokensAreLists()
    ensures ListOf(Store.SubnetTokens, {',', ' ', '\t'})
  {
    TokensBy(Store.SubnetTokens, {',', ' ', '\t'});
  }
}
