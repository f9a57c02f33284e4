/** The few facts about products and quotients that the other modules need by name. */
module Arithmetic {
  lemma Distribute(a: int, b: int, w: int)
    ensures (a + b) * w == a * w + b * w
  {
  }

  lemma {:induction false} AtLeastOnce(d: nat, w: nat)
    requires d >= 1
    ensures d * w >= w
  {
    if d > 1 {
      AtLeastOnce(d - 1, w);
      Distribute(d - 1, 1, w);
    }
  }

  lemma ProductFalls(m: nat, n: nat, w: nat)
    requires m < n
    ensures m * w + w <= n * w
  {
    Distribute(m, n - m, w);
    AtLeastOnce(n - m, w);
  }

  /** `m * w` by repeated addition, for measures that must stay linear for the solver. */
  ghost function Times(m: nat, w: nat): nat {
    if m == 0 then 0 else Times(m - 1, w) + w
  }

  lemma {:induction false} TimesIsProduct(m: nat, w: nat)
    ensures Times(m, w) == m * w
  {
    if m > 0 {
      TimesIsProduct(m - 1, w);
      Distribute(m - 1, 1, w);
    }
  }

  lemma {:induction false} TimesGrows(m: nat, n: nat, w: nat)
    requires m < n
    ensures Times(m, w) + w <= Times(n, w)
  {
    if m + 1 < n {
      TimesGrows(m, n - 1, w);
    }
  }

  function Pow2(n: nat): (p: nat)
    ensures p >= 1
  {
    if n == 0 then 1 else 2 * Pow2(n - 1)
  }

  lemma {:induction false} Pow2Splits(a: nat, b: nat)
    ensures Pow2(a + b) == Pow2(a) * Pow2(b)
  {
    if a == 0 {
    } else {
      Pow2Splits(a - 1, b);
      var x, y := Pow2(a - 1), Pow2(b);
      Distribute(x, x, y);
    }
  }

  lemma Pow2Grows(a: nat, b: nat)
    requires a <= b
    ensures Pow2(a) <= Pow2(b)
  {
    Pow2Splits(b - a, a);
    AtLeastOnce(Pow2(b - a), Pow2(a));
  }

  /** `q` is the quotient of `x` by `s` exactly when `x` lies in the `q`-th stretch of length `s`. */
  lemma QuotientIs(x: nat, s: nat, q: nat)
    requires s > 0
    ensures x / s == q <==> q * s <= x < q * s + s
  {
    var d := x / s;
    assert d * s <= x < d * s + s;
    if d < q {
      ProductFalls(d, q, s);
    } else if q < d {
      ProductFalls(q, d, s);
    }
  }

  lemma StretchOfStretches(x: nat, s: nat, m: nat, q: nat, t: nat)
    requires q * s <= x < q * s + s
    requires t * m <= q < t * m + m
    ensures t * m * s <= x < t * m * s + m * s
  {
    var low := t * m;
    if low < q { ProductFalls(low, q, s); }
    if q + 1 < low + m { ProductFalls(q + 1, low + m, s); }
    Distribute(q, 1, s);
    Distribute(low, m, s);
  }

  lemma Regroup(t: nat, m: nat, s: nat)
    ensures t * m * s == t * (s * m) && m * s == s * m
  {
  }

  /** Dividing twice is dividing by the product. */
  lemma QuotientOfQuotient(x: nat, s: nat, m: nat)
    requires s > 0 && m > 0
    ensures s * m > 0 && (x / s) / m == x / (s * m)
  {
    AtLeastOnce(s, m);
    var q := x / s;
    QuotientIs(x, s, q);
    var t := q / m;
    QuotientIs(q, m, t);
    StretchOfStretches(x, s, m, q, t);
    Regroup(t, m, s);
    QuotientIs(x, s * m, t);
  }
}
