/** What is assumed of the library product of a fixed-point fraction (Perbill, Perquintill) and a balance. */
module PerThings {
  import opened Arith

  /** `mul(p, x)` stands for p parts of `accuracy` times x. It grows with both arguments and never exceeds x. */
  ghost predicate IsProduct(accuracy: nat, mul: (nat, nat) -> nat) {
    && (forall p: nat, x: nat :: p <= accuracy ==> mul(p, x) <= x)
    && (forall p: nat, q: nat, x: nat :: p <= q <= accuracy ==> mul(p, x) <= mul(q, x))
    && (forall p: nat, x: nat, y: nat :: p <= accuracy && x <= y ==> mul(p, x) <= mul(p, y))
  }

  /** The rounding error against the exact product is at most one unit. */
  ghost predicate WithinOne(accuracy: nat, mul: (nat, nat) -> nat) {
    forall p: nat, x: nat :: p <= accuracy ==> Abs(accuracy * mul(p, x) - p * x) <= accuracy
  }

  /** Rounding to the nearest unit, an exact half rounded down. */
  function Nearest(accuracy: nat, p: nat, x: nat): nat
    requires 0 < accuracy
  {
    DivNonneg(2 * (p * x) + accuracy - 1, 2 * accuracy);
    (2 * (p * x) + accuracy - 1) / (2 * accuracy)
  }

  lemma NearestAt(accuracy: nat, p: nat, x: nat)
    requires 0 < accuracy
    ensures Abs(accuracy * Nearest(accuracy, p, x) - p * x) <= accuracy
    ensures p <= accuracy ==> Nearest(accuracy, p, x) <= x
  {
    var m := 2 * (p * x) + accuracy - 1;
    DivBounds(m, 2 * accuracy);
    var q := m / (2 * accuracy);
    assert q * (2 * accuracy) == 2 * (accuracy * q);
    if p <= accuracy && q > x {
      MulMono(p, accuracy, x);
      MulMono(x + 1, q, accuracy);
      MulPlusOne(x, accuracy);
    }
  }

  /** The assumptions are met by rounding to nearest, for every accuracy. */
  lemma NearestIsProduct(accuracy: nat)
    requires 0 < accuracy
    ensures IsProduct(accuracy, (p, x) => Nearest(accuracy, p, x))
    ensures WithinOne(accuracy, (p, x) => Nearest(accuracy, p, x))
  {
    var mul := (p: nat, x: nat) => Nearest(accuracy, p, x);
    forall p: nat, x: nat
      ensures Abs(accuracy * mul(p, x) - p * x) <= accuracy
      ensures p <= accuracy ==> mul(p, x) <= x
    {
      NearestAt(accuracy, p, x);
    }
    forall p: nat, q: nat, x: nat | p <= q <= accuracy
      ensures mul(p, x) <= mul(q, x)
    {
      MulMono(p, q, x);
      DivMono(2 * (p * x) + accuracy - 1, 2 * (q * x) + accuracy - 1, 2 * accuracy);
    }
    forall p: nat, x: nat, y: nat | p <= accuracy && x <= y
      ensures mul(p, x) <= mul(p, y)
    {
      MulMono(x, y, p);
      DivMono(2 * (p * x) + accuracy - 1, 2 * (p * y) + accuracy - 1, 2 * accuracy);
    }
  }
}
