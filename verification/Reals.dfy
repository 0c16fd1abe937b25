/** Products and multiples of reals, as single steps. */
module Reals {

  lemma RealMono(x: real, y: real, c: real)
    requires x <= y && 0.0 <= c
    ensures x * c <= y * c
  {
  }

  lemma RealCancel(x: real, y: real, c: real)
    requires 0.0 < c && x * c <= y * c
    ensures x <= y
  {
  }

  lemma RealCancelEqual(x: real, y: real, c: real)
    requires 0.0 < c && x * c == y * c
    ensures x == y
  {
  }

  lemma RealProduct(a: int, b: int)
    ensures (a * b) as real == a as real * b as real
  {
  }

  lemma RealMonoBoth(x: real, y: real, c: real, d: real)
    requires 0.0 <= x <= y && 0.0 <= c <= d
    ensures 0.0 <= x * c <= y * d
  {
    RealMono(x, y, c);
    RealMono(c, d, y);
    RealMono(0.0, x, c);
  }

  lemma ProductBetween(a: real, b: real)
    requires 0.0 <= a && 0.0 <= b <= 1.0
    ensures 0.0 <= a * b <= a
  {
  }

  // ---- single rearrangements

  lemma Regroup(x: real, y: real, z: real)
    ensures (x * y) * z == (x * z) * y == x * (y * z)
  {
  }

  // ---- products by name: comparisons of products with a common factor are kept apart from their values

  lemma NamedMono(x: real, y: real, c: real, xc: real, yc: real)
    requires x <= y && 0.0 <= c && xc == x * c && yc == y * c
    ensures xc <= yc
  {
  }

  lemma NamedCancel(x: real, y: real, c: real, xc: real, yc: real)
    requires xc <= yc && 0.0 < c && xc == x * c && yc == y * c
    ensures x <= y
  {
  }

  lemma NamedSum(x: real, y: real, c: real, xc: real, yc: real, sum: real)
    requires xc == x * c && yc == y * c && sum == (x + y) * c
    ensures sum == xc + yc
  {
  }

  lemma NamedSwap(x: real, y: real, z: real, xy: real, xz: real, left: real, right: real)
    requires xy == x * y && xz == x * z && left == xy * z && right == xz * y
    ensures left == right
  {
  }

  // ---- multiples

  /** n times x, added up. */
  ghost function Times(n: nat, x: real): real {
    if n == 0 then 0.0 else Times(n - 1, x) + x
  }

  lemma NextOne(n: real, x: real)
    ensures (n + 1.0) * x == n * x + x
  {
  }

  lemma {:induction false} TimesIsProduct(n: nat, x: real)
    ensures Times(n, x) == n as real * x
  {
    if n > 0 {
      TimesIsProduct(n - 1, x);
      NextOne((n - 1) as real, x);
    }
  }

  lemma {:induction false} TimesNotNegative(n: nat, x: real)
    requires 0.0 <= x
    ensures 0.0 <= Times(n, x)
  {
    if n > 0 { TimesNotNegative(n - 1, x); }
  }

  lemma {:induction false} TimesAdds(a: nat, b: nat, x: real)
    ensures Times(a + b, x) == Times(a, x) + Times(b, x)
    decreases b
  {
    if b > 0 { TimesAdds(a, b - 1, x); }
  }

  lemma TimesMono(a: nat, b: nat, x: real)
    requires a <= b && 0.0 <= x
    ensures Times(a, x) <= Times(b, x)
  {
    TimesAdds(a, b - a, x);
    TimesNotNegative(b - a, x);
  }

  lemma {:induction false} TimesGrows(n: nat, x: real, y: real)
    requires x <= y
    ensures Times(n, x) <= Times(n, y)
  {
    if n > 0 { TimesGrows(n - 1, x, y); }
  }

  lemma {:induction false} TimesOfSum(n: nat, x: real, y: real)
    ensures Times(n, x + y) == Times(n, x) + Times(n, y)
  {
    if n > 0 { TimesOfSum(n - 1, x, y); }
  }

  lemma {:induction false} TimesTwice(n: nat, x: real)
    ensures Times(n, 2.0 * x) == Times(2 * n, x)
  {
    if n > 0 {
      TimesTwice(n - 1, x);
      assert Times(2 * n, x) == Times(2 * n - 1, x) + x;
    }
  }
}
