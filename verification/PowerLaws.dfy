/**
 Powers of two against powers of a ratio, by sums of reciprocals: 2^e is at most (p/q)^d exactly when e times ln 2
 is at most d times ln(p/q), both read off sums with fine enough steps.
 */
module PowerLaws {
  import opened Arith
  import opened Reals
  import opened Powers
  import opened Harmonics

  // ---- scaling and powers

  /** A common factor refines the steps. */
  lemma LnScaled(n: nat, p: nat, q: nat, c: nat)
    requires 0 < n && 0 < c && 1 <= q <= p
    ensures Ln(n, p, q) <= Ln(n, c * p, c * q) <= Ln(n, p, q) + Inverse(n)
  {
    MultipleIsProduct(n, p);
    MultipleIsProduct(n, q);
    MultipleIsProduct(n, c * p);
    MultipleIsProduct(n, c * q);
    MulSwap(c, p, n);
    MulSwap(c, q, n);
    MulMonoBoth(n, n, q, p);
    MulMonoBoth(n, n, 1, q);
    assert n * p == p * n && n * q == q * n && n * (c * p) == c * (p * n) && n * (c * q) == c * (q * n);
    HarmonicRefines(c, Multiple(n, q), Multiple(n, p), Multiple(n, c * q), Multiple(n, c * p));
    InverseAntitone(n, Multiple(n, q));
  }

  lemma LnGrows(n: nat, p: nat, p': nat, q: nat)
    requires q <= p <= p'
    ensures Ln(n, p, q) <= Ln(n, p', q)
  {
    LnAdds(n, p', p, q);
  }

  lemma LnOfTwo(n: nat)
    ensures Ln(n, 2, 1) == Ln2(n)
  {
    MultipleIsProduct(n, 2);
    MultipleIsProduct(n, 1);
  }

  /** One more factor p/q. */
  lemma LnOfProduct(n: nat, p: nat, q: nat, p': nat, q': nat)
    requires 0 < n && 1 <= q <= p && 1 <= q' <= p'
    ensures Ln(n, p, q) + Ln(n, p', q') <= Ln(n, p * p', q * q') <= Ln(n, p, q) + Ln(n, p', q') + 2.0 * Inverse(n)
  {
    MulMonoBoth(q, p, p', p');
    MulMonoBoth(q, q, q', p');
    LnAdds(n, p * p', q * p', q * q');
    LnScaled(n, p, q, p');
    LnScaled(n, p', q', q);
    assert p' * p == p * p' && p' * q == q * p';
  }

  /** The logarithm of a power is a multiple, up to two steps for each factor. */
  lemma {:induction false} LnOfPower(n: nat, p: nat, q: nat, d: nat)
    requires 0 < n && 1 <= q <= p
    ensures 1 <= Pow(q, d) <= Pow(p, d)
    ensures Times(d, Ln(n, p, q)) <= Ln(n, Pow(p, d), Pow(q, d)) <= Times(d, Ln(n, p, q)) + Times(2 * d, Inverse(n))
  {
    PowPositive(q, d);
    PowMono(q, p, d);
    if d > 0 {
      LnOfPower(n, p, q, d - 1);
      LnOfProduct(n, p, q, Pow(p, d - 1), Pow(q, d - 1));
      assert Times(2 * d, Inverse(n)) == Times(2 * d - 1, Inverse(n)) + Inverse(n);
    }
  }

  lemma LnOfMultiple(n: nat, m: nat, unit: nat)
    requires 0 < n && 0 < unit && 1 <= m
    ensures unit <= m * unit && Ln(n, m, 1) <= Ln(n, m * unit, unit) <= Ln(n, m, 1) + Inverse(n)
  {
    MulMonoBoth(1, m, unit, unit);
    LnScaled(n, m, 1, unit);
    assert unit * m == m * unit && unit * 1 == unit;
  }

  lemma LnOfPowerOfTwo(n: nat, e: nat)
    requires 0 < n
    ensures 1 <= Pow(2, e) && Times(e, Ln2(n)) <= Ln(n, Pow(2, e), 1) <= Times(e, Ln2(n)) + Times(2 * e, Inverse(n))
  {
    PowOfOne(e);
    LnOfTwo(n);
    LnOfPower(n, 2, 1, e);
  }

  lemma OneMoreStep(n: nat, x: real)
    ensures Times(n + 1, x) == Times(n, x) + x
  {
  }

  /** A power of two times q^d, against q^d. */
  lemma LnOfTwos(n: nat, e: nat, unit: nat)
    requires 0 < n && 0 < unit
    ensures unit <= Pow(2, e) * unit
    ensures Times(e, Ln2(n)) <= Ln(n, Pow(2, e) * unit, unit) <= Times(e, Ln2(n)) + Times(2 * e + 1, Inverse(n))
  {
    LnOfPowerOfTwo(n, e);
    LnOfMultiple(n, Pow(2, e), unit);
    OneMoreStep(2 * e, Inverse(n));
  }

  // ---- from powers to logarithms

  lemma PowerBelow(n: nat, e: nat, d: nat, p: nat, q: nat)
    requires 0 < n && 1 <= q <= p && Pow(2, e) * Pow(q, d) <= Pow(p, d)
    ensures Times(e, Ln2(n)) <= Times(d, Ln(n, p, q)) + Times(2 * d, Inverse(n))
  {
    LnOfPower(n, p, q, d);
    LnOfTwos(n, e, Pow(q, d));
    LnGrows(n, Pow(2, e) * Pow(q, d), Pow(p, d), Pow(q, d));
  }

  lemma PowerAbove(n: nat, e: nat, d: nat, p: nat, q: nat)
    requires 0 < n && 1 <= q <= p && Pow(p, d) <= Pow(2, e) * Pow(q, d)
    ensures Times(d, Ln(n, p, q)) <= Times(e, Ln2(n)) + Times(2 * e + 1, Inverse(n))
  {
    LnOfPower(n, p, q, d);
    LnOfTwos(n, e, Pow(q, d));
    LnGrows(n, Pow(p, d), Pow(2, e) * Pow(q, d), Pow(q, d));
  }

  // ---- and back

  /** Two different numbers are at least the reciprocal of the larger one apart. */
  lemma LnApart(n: nat, p: nat, q: nat)
    requires 0 < n && q < p
    ensures Inverse(p) <= Ln(n, p, q)
  {
    var low, high := Multiple(n, p - 1), Multiple(n, p);
    MultipleAdds(n, p - 1, 1);
    MultipleIsProduct(n, p);
    LnAdds(n, p, p - 1, q);
    assert high == low + n;
    forall j | low < j <= low + n
      ensures Inverse(high) <= Inverse(j) <= 1.0
    {
      InverseAntitone(j, high);
    }
    HarmonicBlock(low, n, Inverse(high), 1.0);
    InverseOfProduct(n, p, high);
  }

  /** A reciprocal is more than few enough smaller ones. */
  lemma NotWithin(b: nat, k: nat, n: nat)
    requires 0 < b && k * b < n
    ensures Times(k, Inverse(n)) < Inverse(b)
  {
    TimesIsProduct(k, Inverse(n));
    RealProduct(k, b);
    FewerParts(k as real, b as real, n as real, Inverse(n), Inverse(b));
  }

  lemma FewerParts(k: real, b: real, n: real, x: real, y: real)
    requires 0.0 < b && 0.0 < n && k * b < n && x * n == 1.0 && y * b == 1.0
    ensures k * x < y
  {
    if y <= k * x {
      RealMono(y, k * x, b);
      assert 1.0 <= (k * b) * x;
      if x <= 0.0 { RealMono(x, 0.0, n); }
      StrictMono(k * b, n, x);
    }
  }

  lemma StrictMono(a: real, b: real, x: real)
    requires a < b && 0.0 < x
    ensures a * x < b * x
  {
  }

  /** If e times ln 2 is at most d times ln(p/q), up to few enough steps, then 2^e is at most (p/q)^d. */
  lemma BelowPower(n: nat, e: nat, d: nat, p: nat, q: nat, c: nat)
    requires 1 <= q <= p && (c + 2 * e + 1) * (Pow(2, e) * Pow(q, d)) < n
    requires Times(e, Ln2(n)) <= Times(d, Ln(n, p, q)) + Times(c, Inverse(n))
    ensures Pow(2, e) * Pow(q, d) <= Pow(p, d)
  {
    LnOfPower(n, p, q, d);
    LnOfTwos(n, e, Pow(q, d));
    var b := Pow(2, e) * Pow(q, d);
    if Pow(p, d) < b {
      LnAdds(n, b, Pow(p, d), Pow(q, d));
      LnApart(n, b, Pow(p, d));
      TimesAdds(c, 2 * e + 1, Inverse(n));
      assert c + (2 * e + 1) == c + 2 * e + 1;
      NotWithin(b, c + 2 * e + 1, n);
    }
  }

  /** If d times ln(p/q) is at most e times ln 2, up to few enough steps, then (p/q)^d is at most 2^e. */
  lemma AbovePower(n: nat, e: nat, d: nat, p: nat, q: nat, c: nat)
    requires 1 <= q <= p && (c + 2 * d) * Pow(p, d) < n
    requires Times(d, Ln(n, p, q)) <= Times(e, Ln2(n)) + Times(c, Inverse(n))
    ensures Pow(p, d) <= Pow(2, e) * Pow(q, d)
  {
    LnOfPower(n, p, q, d);
    LnOfTwos(n, e, Pow(q, d));
    var b := Pow(2, e) * Pow(q, d);
    if b < Pow(p, d) {
      LnAdds(n, Pow(p, d), b, Pow(q, d));
      LnApart(n, Pow(p, d), b);
      TimesAdds(c, 2 * d, Inverse(n));
      NotWithin(Pow(p, d), c + 2 * d, n);
    }
  }
}
