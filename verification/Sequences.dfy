/** Order-preserving selection from a sequence, and what it commutes with. */
module Sequences {
  import opened Wrappers

  function Elems<T>(s: seq<T>): set<T> {
    set x | x in s
  }

  function Filter<T>(rows: seq<T>, keep: T -> bool): seq<T> {
    if rows == [] then []
    else Filter(rows[..|rows| - 1], keep) + (if keep(rows[|rows| - 1]) then [rows[|rows| - 1]] else [])
  }

  /** Exactly the elements that satisfy `keep` are kept. */
  lemma {:induction false} FilterMembers<T>(rows: seq<T>, keep: T -> bool)
    ensures forall i :: 0 <= i < |Filter(rows, keep)| ==> Filter(rows, keep)[i] in rows && keep(Filter(rows, keep)[i])
    ensures forall i :: 0 <= i < |rows| && keep(rows[i]) ==> rows[i] in Filter(rows, keep)
  {
    if rows != [] {
      var init, last := rows[..|rows| - 1], rows[|rows| - 1];
      FilterMembers(init, keep);
      assert rows == init + [last];
    }
  }

  lemma FilterNext<T>(a: seq<T>, n: nat, keep: T -> bool)
    requires n < |a|
    ensures Filter(a[..n + 1], keep) == if keep(a[n]) then Filter(a[..n], keep) + [a[n]] else Filter(a[..n], keep)
  {
    assert a[..n + 1][..n] == a[..n];
    assert Filter(a[..n], keep) + [] == Filter(a[..n], keep);
  }

  lemma InFilter<T>(a: seq<T>, keep: T -> bool, x: T)
    ensures x in Filter(a, keep) <==> x in a && keep(x)
  {
    FilterMembers(a, keep);
  }

  ghost predicate Pairwise<T>(a: seq<T>, r: (T, T) -> bool) {
    forall i, j :: 0 <= i < j < |a| ==> r(a[i], a[j])
  }

  lemma {:induction false} FilterPairwise<T>(a: seq<T>, keep: T -> bool, r: (T, T) -> bool)
    requires Pairwise(a, r)
    ensures Pairwise(Filter(a, keep), r)
  {
    if a != [] {
      var init := a[..|a| - 1];
      FilterPairwise(init, keep, r);
      var kept := Filter(init, keep);
      forall k | 0 <= k < |kept| ensures r(kept[k], a[|a| - 1]) {
        InFilter(init, keep, kept[k]);
      }
    }
  }

  lemma {:induction false} FilterConcat<T>(a: seq<T>, b: seq<T>, keep: T -> bool)
    ensures Filter(a + b, keep) == Filter(a, keep) + Filter(b, keep)
  {
    if b == [] {
      assert a + b == a;
    } else {
      var init := b[..|b| - 1];
      assert (a + b)[..|a + b| - 1] == a + init;
      FilterConcat(a, init, keep);
    }
  }

  lemma {:induction false} FilterAll<T>(a: seq<T>, keep: T -> bool)
    requires forall i :: 0 <= i < |a| ==> keep(a[i])
    ensures Filter(a, keep) == a
  {
    if a != [] {
      FilterAll(a[..|a| - 1], keep);
    }
  }

  lemma {:induction false} FilterNone<T>(a: seq<T>, keep: T -> bool)
    requires forall i :: 0 <= i < |a| ==> !keep(a[i])
    ensures Filter(a, keep) == []
  {
    if a != [] {
      FilterNone(a[..|a| - 1], keep);
    }
  }

  lemma {:induction false} FilterTwice<T>(a: seq<T>, p: T -> bool, q: T -> bool)
    requires forall i :: 0 <= i < |a| && q(a[i]) ==> p(a[i])
    ensures Filter(Filter(a, p), q) == Filter(a, q)
  {
    if a != [] {
      FilterTwice(a[..|a| - 1], p, q);
      var kept, last := Filter(a[..|a| - 1], p), a[|a| - 1];
      FilterConcat(kept, [last], q);
      assert [last][..0] == [] && kept + [] == kept;
    }
  }

  lemma {:induction false} FilterAgree<T>(a: seq<T>, p: T -> bool, q: T -> bool)
    requires forall i :: 0 <= i < |a| ==> p(a[i]) == q(a[i])
    ensures Filter(a, p) == Filter(a, q)
  {
    if a != [] {
      FilterAgree(a[..|a| - 1], p, q);
    }
  }

  /** Replacing one dropped element by another changes nothing. */
  lemma {:induction false} FilterUpdate<T>(a: seq<T>, i: nat, x: T, keep: T -> bool)
    requires i < |a| && !keep(a[i]) && !keep(x)
    ensures Filter(a[i := x], keep) == Filter(a, keep)
  {
    var init := a[..|a| - 1];
    if i < |a| - 1 {
      assert a[i := x][..|a| - 1] == init[i := x];
      FilterUpdate(init, i, x, keep);
    } else {
      assert a[i := x][..|a| - 1] == init;
    }
  }

  function Without<T>(a: seq<T>, i: nat): seq<T>
    requires i < |a|
  {
    a[..i] + a[i + 1..]
  }

  /** Taking out one dropped element changes nothing. */
  lemma {:induction false} FilterRemove<T>(a: seq<T>, i: nat, keep: T -> bool)
    requires i < |a| && !keep(a[i])
    ensures Filter(Without(a, i), keep) == Filter(a, keep)
  {
    var init := a[..|a| - 1];
    var r := Without(a, i);
    if i < |a| - 1 {
      assert r[..|r| - 1] == Without(init, i);
      FilterRemove(init, i, keep);
    } else {
      assert r == init;
    }
  }

  /** Index of the first element that satisfies `p`. */
  function First<T>(a: seq<T>, p: T -> bool): (r: Option<nat>)
    ensures r.Some? ==> r.value < |a| && p(a[r.value])
    ensures r.Some? ==> forall j :: 0 <= j < r.value ==> !p(a[j])
    ensures r.None? ==> forall j :: 0 <= j < |a| ==> !p(a[j])
  {
    if a == [] then None
    else
      var r := First(a[..|a| - 1], p);
      if r.Some? then r else if p(a[|a| - 1]) then Some(|a| - 1) else None
  }

  /** Searching a selection finds the element the search of the whole finds. */
  lemma {:induction false} FirstInFilter<T>(a: seq<T>, p: T -> bool, q: T -> bool)
    requires forall i :: 0 <= i < |a| && q(a[i]) ==> p(a[i])
    ensures First(a, q).Some? <==> First(Filter(a, p), q).Some?
    ensures First(a, q).Some? ==> Filter(a, p)[First(Filter(a, p), q).value] == a[First(a, q).value]
  {
    if a != [] {
      var init, last := a[..|a| - 1], a[|a| - 1];
      FirstInFilter(init, p, q);
      var kept := Filter(init, p);
      if p(last) {
        assert (kept + [last])[..|kept|] == kept;
      } else {
        assert kept + [] == kept;
      }
    }
  }

  /** Elements carry pairwise distinct ids, none above `top`. */
  ghost predicate IdsValid<T>(a: seq<T>, id: T -> nat, top: nat) {
    && (forall i :: 0 <= i < |a| ==> id(a[i]) <= top)
    && (forall i, j :: 0 <= i < j < |a| ==> id(a[i]) != id(a[j]))
  }

  lemma FilterKeepsIds<T>(a: seq<T>, id: T -> nat, top: nat, keep: T -> bool)
    requires IdsValid(a, id, top)
    ensures IdsValid(Filter(a, keep), id, top)
  {
    FilterMembers(a, keep);
    FilterPairwise(a, keep, (x: T, y: T) => id(x) != id(y));
    forall i | 0 <= i < |Filter(a, keep)| ensures id(Filter(a, keep)[i]) <= top {
      assert Filter(a, keep)[i] in a;
    }
  }

  /** Dropping a single element, wherever it stands. */
  lemma {:induction false} FilterDropsOne<T>(a: seq<T>, i: nat, keep: T -> bool)
    requires i < |a| && !keep(a[i])
    requires forall k :: 0 <= k < |a| && k != i ==> keep(a[k])
    ensures Filter(a, keep) == Without(a, i)
  {
    var init := a[..|a| - 1];
    if i < |a| - 1 {
      FilterDropsOne(init, i, keep);
    } else {
      FilterAll(init, keep);
      assert init + [] == init;
    }
  }

  lemma FilterNoneOrFirst<T>(a: seq<T>, p: T -> bool)
    ensures Filter(a, p) == [] <==> First(a, p).None?
  {
    if First(a, p).None? {
      FilterNone(a, p);
    } else {
      FilterMembers(a, p);
    }
  }

  // ---- Sweeping a table while it shrinks ----

  /**
   A listing of the selected elements was taken from `done + rest`; those selected in
   `done` have been dealt with, so the table now holds what `keep` keeps of `done`,
   followed by `rest` untouched, and `todo` lists what is selected in `rest`.
   */
  ghost predicate Sweep<T>(table: seq<T>, done: seq<T>, rest: seq<T>, todo: seq<T>, sel: T -> bool, keep: T -> bool) {
    && table == Filter(done, keep) + rest
    && todo == Filter(rest, sel)
    && forall i :: 0 <= i < |rest| && !sel(rest[i]) ==> keep(rest[i])
  }

  lemma {:induction false} FilterSplitsAtFirst<T>(rest: seq<T>, i: nat, sel: T -> bool)
    requires First(rest, sel) == Some(i) && i < |rest|
    ensures Filter(rest, sel) == [rest[i]] + Filter(rest[i + 1..], sel)
  {
    var init := rest[..|rest| - 1];
    if i == |rest| - 1 {
      FilterNone(init, sel);
      assert rest[i + 1..] == [];
    } else {
      FilterSplitsAtFirst(init, i, sel);
      var tail := rest[i + 1..];
      assert tail[..|tail| - 1] == init[i + 1..];
      var last := if sel(rest[|rest| - 1]) then [rest[|rest| - 1]] else [];
      assert [rest[i]] + Filter(init[i + 1..], sel) + last == [rest[i]] + (Filter(init[i + 1..], sel) + last);
    }
  }

  lemma KeepThroughFirst<T>(done: seq<T>, rest: seq<T>, i: nat, keep: T -> bool)
    requires i < |rest| && forall j :: 0 <= j < i ==> keep(rest[j])
    ensures Filter(done + rest[..i + 1], keep)
        == Filter(done, keep) + rest[..i] + (if keep(rest[i]) then [rest[i]] else [])
  {
    var front := done + rest[..i + 1];
    assert front[..|front| - 1] == done + rest[..i];
    FilterConcat(done, rest[..i], keep);
    FilterAll(rest[..i], keep);
  }

  lemma TakeOutOrPass<T>(front: seq<T>, rest: seq<T>, i: nat)
    requires i < |rest|
    ensures front + rest == front + rest[..i] + [rest[i]] + rest[i + 1..]
    ensures Without(front + rest, |front| + i) == front + rest[..i] + [] + rest[i + 1..]
  {
  }

  lemma NextSelected<T>(rest: seq<T>, todo: seq<T>, sel: T -> bool) returns (i: nat)
    requires todo == Filter(rest, sel) && todo != []
    ensures First(rest, sel) == Some(i) && i < |rest|
    ensures rest[i] == todo[0] && todo[1..] == Filter(rest[i + 1..], sel)
  {
    FilterNoneOrFirst(rest, sel);
    i := First(rest, sel).value;
    FilterSplitsAtFirst(rest, i, sel);
  }

  /** The next listed element stands at `|Filter(done, keep)| + i` and can be passed or taken out. */
  lemma SweepStep<T>(table: seq<T>, done: seq<T>, rest: seq<T>, todo: seq<T>, sel: T -> bool, keep: T -> bool)
      returns (i: nat)
    requires Sweep(table, done, rest, todo, sel, keep) && todo != []
    ensures First(rest, sel) == Some(i) && i < |rest|
    ensures rest[i] == todo[0]
    ensures |Filter(done, keep)| + i < |table| && table[|Filter(done, keep)| + i] == rest[i]
    ensures keep(rest[i]) ==> Sweep(table, done + rest[..i + 1], rest[i + 1..], todo[1..], sel, keep)
    ensures !keep(rest[i]) ==>
      Sweep(Without(table, |Filter(done, keep)| + i), done + rest[..i + 1], rest[i + 1..], todo[1..], sel, keep)
  {
    i := NextSelected(rest, todo, sel);
    KeepThroughFirst(done, rest, i, keep);
    TakeOutOrPass(Filter(done, keep), rest, i);
  }

  lemma SweepDone<T>(table: seq<T>, done: seq<T>, rest: seq<T>, sel: T -> bool, keep: T -> bool)
    requires Sweep(table, done, rest, [], sel, keep)
    ensures table == Filter(done + rest, keep)
  {
    FilterNoneOrFirst(rest, sel);
    FilterAll(rest, keep);
    FilterConcat(done, rest, keep);
  }

  // ---- Trimming, apart from how it is done ----

  /** `t` is `s` without the blanks at its two ends. */
  ghost predicate Trimmed<T>(s: seq<T>, t: seq<T>, blank: set<T>) {
    exists i, j :: TrimmedAt(s, t, blank, i, j)
  }

  ghost predicate TrimmedAt<T>(s: seq<T>, t: seq<T>, blank: set<T>, i: int, j: int) {
    && 0 <= i <= j <= |s| && t == s[i..j]
    && (forall k :: 0 <= k < i || j <= k < |s| ==> s[k] in blank)
    && (t != [] ==> t[0] !in blank && t[|t| - 1] !in blank)
  }

  lemma TrimmedUnique<T>(s: seq<T>, t: seq<T>, u: seq<T>, blank: set<T>)
    requires Trimmed(s, t, blank) && Trimmed(s, u, blank)
    ensures t == u
  {
    var i, j :| TrimmedAt(s, t, blank, i, j);
    var k, l :| TrimmedAt(s, u, blank, k, l);
    assert t != [] ==> s[i] == t[0] && s[j - 1] == t[|t| - 1];
    assert u != [] ==> s[k] == u[0] && s[l - 1] == u[|u| - 1];
  }

  /** Dropping one blank at the front, or at the back, leaves the same to be found. */
  lemma BlankInFront<T>(s: seq<T>, t: seq<T>, blank: set<T>)
    requires s != [] && s[0] in blank && Trimmed(s[1..], t, blank)
    ensures Trimmed(s, t, blank)
  {
    var i, j :| TrimmedAt(s[1..], t, blank, i, j);
    assert forall k :: 1 <= k < |s| ==> s[k] == s[1..][k - 1];
    assert TrimmedAt(s, t, blank, i + 1, j + 1);
  }

  lemma BlankAtBack<T>(s: seq<T>, t: seq<T>, blank: set<T>)
    requires s != [] && s[|s| - 1] in blank && Trimmed(s[..|s| - 1], t, blank)
    ensures Trimmed(s, t, blank)
  {
    var i, j :| TrimmedAt(s[..|s| - 1], t, blank, i, j);
    assert forall k :: 0 <= k < |s| - 1 ==> s[k] == s[..|s| - 1][k];
    assert TrimmedAt(s, t, blank, i, j);
  }

  lemma NothingBlank<T>(s: seq<T>, blank: set<T>)
    requires s != [] ==> s[0] !in blank && s[|s| - 1] !in blank
    ensures Trimmed(s, s, blank)
  {
    assert TrimmedAt(s, s, blank, 0, |s|);
  }
}
