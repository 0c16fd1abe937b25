/** Sums of reciprocals: from na to nb they approach ln(b/a) as n grows, and they add up exactly. */
module Harmonics {
  import opened Arith
  import opened Reals

  ghost function Inverse(j: nat): (r: real)
    requires 0 < j
    ensures 0.0 < r <= 1.0 && r * j as real == 1.0
  {
    InverseBetween(1.0 / j as real, j as real);
    1.0 / j as real
  }

  lemma InverseBetween(r: real, j: real)
    requires 1.0 <= j && r * j == 1.0
    ensures 0.0 < r <= 1.0
  {
    if r <= 0.0 { RealMono(r, 0.0, j); }
    RealCancel(r, 1.0, j);
  }

  lemma InverseAntitone(i: nat, j: nat)
    requires 0 < i <= j
    ensures Inverse(j) <= Inverse(i)
  {
    RealMono(i as real, j as real, Inverse(j));
    RealCancel(Inverse(j), Inverse(i), i as real);
  }

  /** 1/(a + 1) + ... + 1/b */
  ghost function Harmonic(a: nat, b: nat): (r: real)
    ensures 0.0 <= r
  {
    if b <= a then 0.0 else Harmonic(a, b - 1) + Inverse(b)
  }

  lemma {:induction false} HarmonicAdds(a: nat, b: nat, c: nat)
    requires a <= b <= c
    ensures Harmonic(a, c) == Harmonic(a, b) + Harmonic(b, c)
    decreases c
  {
    if b < c { HarmonicAdds(a, b, c - 1); }
  }

  /** The same number of reciprocals of smaller numbers add up to more: the logarithm is convex. */
  lemma {:induction false} HarmonicShift(a: nat, b: nat, n: nat)
    requires a <= b
    ensures Harmonic(b, b + n) <= Harmonic(a, a + n)
    decreases n
  {
    if n > 0 {
      HarmonicShift(a, b, n - 1);
      InverseAntitone(a + n, b + n);
    }
  }

  /** n reciprocals between low and high. */
  lemma {:induction false} HarmonicBlock(a: nat, n: nat, low: real, high: real)
    requires forall j :: a < j <= a + n ==> low <= Inverse(j) <= high
    ensures Times(n, low) <= Harmonic(a, a + n) <= Times(n, high)
    decreases n
  {
    if n > 0 { HarmonicBlock(a, n - 1, low, high); }
  }

  lemma InverseOfProduct(c: nat, j: nat, product: nat)
    requires 0 < c && 0 < j && product == c * j
    ensures 0 < product && Times(c, Inverse(product)) == Inverse(j)
  {
    MulMonoBoth(1, c, 1, j);
    RealProduct(c, j);
    TimesIsProduct(c, Inverse(product));
    InverseTwice(c as real, j as real, Inverse(product), Inverse(j));
  }

  lemma InverseTwice(c: real, j: real, x: real, y: real)
    requires 0.0 < j && x * (c * j) == 1.0 && y * j == 1.0
    ensures c * x == y
  {
    assert (c * x) * j == x * (c * j);
    RealCancelEqual(c * x, y, j);
  }

  /** c reciprocals of numbers c times as large. */
  lemma RefinesOne(c: nat, b: nat, low: nat, high: nat)
    requires 0 < c && 1 < b && low == c * (b - 1) && high == c * b
    ensures 0 < low <= high && Inverse(b) <= Harmonic(low, high) <= Inverse(b - 1)
  {
    InverseOfProduct(c, b - 1, low);
    InverseOfProduct(c, b, high);
    MulDistrib(c, b - 1, 1);
    forall j | low < j <= low + c
      ensures Inverse(high) <= Inverse(j) <= Inverse(low)
    {
      InverseAntitone(low, j);
      InverseAntitone(j, high);
    }
    HarmonicBlock(low, c, Inverse(high), Inverse(low));
  }

  /** Taking c times as many, c times smaller steps raises the sum by at most 1/a. */
  lemma {:induction false} HarmonicRefines(c: nat, a: nat, b: nat, ca: nat, cb: nat)
    requires 0 < c && 0 < a <= b && ca == c * a && cb == c * b
    ensures Harmonic(a, b) <= Harmonic(ca, cb) <= Harmonic(a, b) + Inverse(a) - Inverse(b)
    decreases b
  {
    if a < b {
      var before: nat := c * (b - 1);
      HarmonicRefines(c, a, b - 1, ca, before);
      MulMonoBoth(c, c, a, b - 1);
      RefinesOne(c, b, before, cb);
      HarmonicAdds(ca, before, cb);
    }
  }

  // ---- logarithms

  /** The sum from n + 1 to 2n, which is ln 2 for large n. */
  ghost function Ln2(n: nat): real { Harmonic(n, 2 * n) }

  /** n times q. */
  function Multiple(n: nat, q: nat): nat {
    if q == 0 then 0 else Multiple(n, q - 1) + n
  }

  lemma {:induction false} MultipleIsProduct(n: nat, q: nat)
    ensures Multiple(n, q) == n * q
  {
    if q > 0 {
      MultipleIsProduct(n, q - 1);
      MulDistrib(n, q - 1, 1);
    }
  }

  lemma {:induction false} MultipleAdds(n: nat, q: nat, m: nat)
    ensures Multiple(n, q + m) == Multiple(n, q) + Multiple(n, m)
    decreases m
  {
    if m > 0 { MultipleAdds(n, q, m - 1); }
  }

  /** ln(p/q): the sum of the reciprocals from nq + 1 to np. */
  ghost function Ln(n: nat, p: nat, q: nat): real { Harmonic(Multiple(n, q), Multiple(n, p)) }

  lemma LnAdds(n: nat, p: nat, q: nat, r: nat)
    requires r <= q <= p
    ensures Ln(n, p, r) == Ln(n, p, q) + Ln(n, q, r)
  {
    MultipleAdds(n, r, q - r);
    MultipleAdds(n, q, p - q);
    HarmonicAdds(Multiple(n, r), Multiple(n, q), Multiple(n, p));
  }

  /** One doubling is ln 2, up to one step. */
  lemma LnOfDouble(n: nat, q: nat)
    requires 0 < n && 1 <= q
    ensures Ln2(n) <= Ln(n, 2 * q, q) <= Ln2(n) + Inverse(n)
  {
    MultipleIsProduct(n, q);
    MultipleIsProduct(n, 2 * q);
    MulSwap(q, 2, n);
    MulSwap(2, n, q);
    assert n * q == q * n && n * (2 * q) == q * (2 * n);
    HarmonicRefines(q, n, 2 * n, Multiple(n, q), Multiple(n, 2 * q));
  }

  /** Steps down from smaller numbers take the reference further. */
  lemma LnShift(n: nat, q: nat, q': nat, m: nat)
    requires m <= q' <= q
    ensures Ln(n, q, q - m) <= Ln(n, q', q' - m)
  {
    MultipleAdds(n, q - m, m);
    MultipleAdds(n, q' - m, m);
    MultipleAdds(n, q' - m, q - q');
    HarmonicShift(Multiple(n, q' - m), Multiple(n, q - m), Multiple(n, m));
  }
}
