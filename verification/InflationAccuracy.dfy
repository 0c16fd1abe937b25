/**
 How close the alternating series comes to A * e^-z, where z = (x - x_ideal) * ln 2 / d: within one unit of
 accuracy for each term, although single terms can be 10^29 times larger than the result. The reference e^z
 is its series of positive terms; nothing is rounded in it and no terms cancel.
 */
module InflationAccuracy {
  import opened Arith
  import opened Reals
  import opened InflationSeries

  // ---- the exponential series

  /** The weights z^i / i! of the exponential series, the steps z / (k + 1), and the parts k / (k + i) of the
      weights, all known by what they satisfy. */
  datatype Expansion = Expansion(z: real, weight: nat -> real, step: nat -> real, part: (nat, nat) -> real)

  ghost predicate WeightAt(x: Expansion, i: nat) {
    0.0 <= x.weight(i) && x.weight(i + 1) * (i as real + 1.0) == x.weight(i) * x.z
  }

  ghost predicate StepAt(x: Expansion, k: nat) {
    x.step(k) * (k as real + 1.0) == x.z && x.part(k, 0) == 1.0 && (0 < k ==> x.part(0, k) == 0.0)
  }

  ghost predicate PartAt(x: Expansion, k: nat, i: nat) {
    0.0 <= x.part(k, i) <= x.weight(i) && x.part(k, i + 1) + x.step(k) * x.part(k + 1, i) == x.weight(i + 1)
  }

  ghost predicate Expands(x: Expansion) {
    && 0.0 <= x.z && x.weight(0) == 1.0
    && (forall i: nat :: WeightAt(x, i))
    && (forall k: nat :: StepAt(x, k))
    && (forall k: nat, i: nat :: PartAt(x, k, i))
  }

  /** The sum of the weights up to m: e^z in the limit. */
  ghost function Exp(x: Expansion, m: nat): real {
    if m == 0 then 1.0 else Exp(x, m - 1) + x.weight(m)
  }

  /** The parts up to m. Divided by the sum of the weights this is the factor by which the tail of an
      alternating series from its k-th term on is smaller than that term. */
  ghost function Parts(x: Expansion, m: nat, k: nat): real {
    if m == 0 then 1.0 else Parts(x, m - 1, k) + x.part(k, m)
  }

  lemma {:induction false} ExpBounds(x: Expansion, m: nat)
    requires Expands(x)
    ensures 1.0 <= Exp(x, m) && (0 < m ==> 1.0 + x.z <= Exp(x, m))
    ensures 1 < m ==> 1.0 + x.z + x.weight(2) <= Exp(x, m)
  {
    if m > 0 {
      assert WeightAt(x, m);
      ExpBounds(x, m - 1);
      if m == 1 { assert WeightAt(x, 0); }
    }
  }

  lemma SecondWeight(x: Expansion)
    requires Expands(x)
    ensures 2.0 * x.weight(2) == x.z * x.z
  {
    assert WeightAt(x, 0) && WeightAt(x, 1);
  }

  lemma {:induction false} PartsBounds(x: Expansion, m: nat, k: nat)
    requires Expands(x)
    ensures 0.0 <= Parts(x, m, k) <= Exp(x, m)
  {
    if m > 0 {
      assert PartAt(x, k, m);
      PartsBounds(x, m - 1, k);
    }
  }

  lemma {:induction false} PartsOfFirst(x: Expansion, m: nat)
    requires Expands(x)
    ensures Parts(x, m, 0) == 1.0
  {
    if m > 0 {
      PartsOfFirst(x, m - 1);
      assert StepAt(x, m);
    }
  }

  lemma PartsAlgebra(a: real, b: real, q: real, p: real, p': real, p'': real, e: real, w: real)
    requires a + q * b == e + q * p' && p + q * p' == w
    ensures (a + p) + q * (b + p'') == (e + w) + q * p''
  {
  }

  /** The recurrence that makes the parts fit the terms, exact up to what the first weight left out would add. */
  lemma {:induction false} PartsStep(x: Expansion, m: nat, k: nat)
    requires Expands(x)
    ensures Parts(x, m, k) + x.step(k) * Parts(x, m, k + 1) == Exp(x, m) + x.step(k) * x.part(k + 1, m)
  {
    if m == 0 {
      assert StepAt(x, k + 1);
    } else {
      PartsStep(x, m - 1, k);
      assert PartAt(x, k, m - 1);
      PartsAlgebra(Parts(x, m - 1, k), Parts(x, m - 1, k + 1), x.step(k), x.part(k, m), x.part(k + 1, m - 1),
                   x.part(k + 1, m), Exp(x, m - 1), x.weight(m));
    }
  }

  // ---- the weights vanish

  lemma AtMostHalf(w: real, w': real, z: real, i: real)
    requires 0.0 <= w && 0.0 <= w' && w' * i == w * z && z <= 70.0 && 140.0 <= i
    ensures 2.0 * w' <= w
  {
    RealMono(z, 70.0, w);
    RealMono(140.0, i, w');
  }

  lemma HalfAtLeast(w: real, w': real, n: real)
    requires 0.0 <= w' && 2.0 * w' <= w && 1.0 <= n
    ensures w' * (n + 1.0) <= w * n
  {
    RealMono(2.0 * w', w, n);
    RealMono(n + 1.0, 2.0 * n, w');
  }

  lemma {:induction false} WeightsVanish(x: Expansion, n: nat)
    requires Expands(x) && x.z <= 70.0
    ensures x.weight(140 + n) * (n as real + 1.0) <= x.weight(140)
  {
    if n > 0 {
      WeightsVanish(x, n - 1);
      assert WeightAt(x, 139 + n) && WeightAt(x, 140 + n);
      AtMostHalf(x.weight(139 + n), x.weight(140 + n), x.z, 140.0 + n as real);
      HalfAtLeast(x.weight(139 + n), x.weight(140 + n), n as real);
    }
  }

  lemma SmallEnough(w: real, c: real, b: real, n: real)
    requires 0.0 <= w && w * n <= c && c * b <= n && 0.0 < n && 0.0 <= b
    ensures w * b <= 1.0
  {
    RealMono(w * n, c, b);
    RealCancel(w * b, 1.0, n);
  }

  /** From some weight on, all are below one part of the bound. */
  lemma WeightsBelow(x: Expansion, bound: real) returns (m0: nat)
    requires Expands(x) && x.z <= 70.0 && 0.0 <= bound
    ensures forall m: nat :: m0 <= m ==> x.weight(m) * bound <= 1.0
  {
    var c := x.weight(140);
    assert WeightAt(x, 140);
    assert 0.0 <= c * bound;
    m0 := 140 + (c * bound).Floor + 1;
    forall m: nat | m0 <= m
      ensures x.weight(m) * bound <= 1.0
    {
      WeightsVanish(x, m - 140);
      assert WeightAt(x, m);
      SmallEnough(x.weight(m), c, bound, (m - 140) as real + 1.0);
    }
  }

  // ---- alternating sums whose terms lose less than one each

  /** Term k + 1 is term k times its step, less a loss of at most one. */
  ghost predicate LosesAtMostOne(x: Expansion, t: nat -> nat, k: nat) {
    0.0 <= t(k) as real * x.step(k) - t(k + 1) as real <= 1.0
  }

  /** What the first weight left out adds to term k is next to nothing. */
  ghost predicate SmallAt(x: Expansion, t: nat -> nat, m: nat, k: nat) {
    x.weight(m + 1) * t(k) as real <= 0.0025
  }

  /** The alternating sum of the terms from k up to the n-th, the k-th one positive. */
  ghost function Tail(t: nat -> nat, n: nat, k: nat): int
    decreases n + 1 - k
  {
    if k > n then 0 else t(k) - Tail(t, n, k + 1)
  }

  /** How far a tail is from the part of its first term, both times e^z. */
  ghost function Gap(x: Expansion, t: nat -> nat, n: nat, m: nat, k: nat): real {
    Tail(t, n, k) as real * Exp(x, m) - Parts(x, m, k) * t(k) as real
  }

  lemma GapAlgebra(e: real, part: real, part': real, t: real, t': real, tail: real, tail': real, q: real, left: real)
    requires part + q * part' == e + left && tail == t - tail'
    ensures (tail * e - part * t) + (tail' * e - part' * t') == part' * (t * q - t') - left * t
  {
    assert t * (part + q * part') == t * (e + left);
    assert t * (q * part') == part' * (t * q);
  }

  lemma StepAlgebra(sum: real, part: real, loss: real, left: real, t: real, w: real, e: real)
    requires sum == part * loss - left * t && 0.0 <= part <= e && 0.0 <= loss <= 1.0
    requires 0.0 <= left <= w && 0.0 <= t && w * t <= 0.0025
    ensures -0.0025 <= sum <= e
  {
    ProductBetween(part, loss);
    RealMonoBoth(left, w, t, t);
    SumBetween(sum, part * loss, left * t, e);
  }

  lemma SumBetween(sum: real, gain: real, rest: real, e: real)
    requires sum == gain - rest && 0.0 <= gain <= e && 0.0 <= rest <= 0.0025
    ensures -0.0025 <= sum <= e
  {
  }

  lemma GapSum(x: Expansion, t: nat -> nat, n: nat, m: nat, k: nat)
    requires Expands(x) && k < n
    ensures Gap(x, t, n, m, k) + Gap(x, t, n, m, k + 1)
         == Parts(x, m, k + 1) * (t(k) as real * x.step(k) - t(k + 1) as real) - (x.step(k) * x.part(k + 1, m)) * t(k) as real
  {
    PartsStep(x, m, k);
    GapAlgebra(Exp(x, m), Parts(x, m, k), Parts(x, m, k + 1), t(k) as real, t(k + 1) as real, Tail(t, n, k) as real,
               Tail(t, n, k + 1) as real, x.step(k), x.step(k) * x.part(k + 1, m));
  }

  lemma LeftOutBetween(x: Expansion, m: nat, k: nat)
    requires Expands(x)
    ensures 0.0 <= x.step(k) * x.part(k + 1, m) <= x.weight(m + 1)
  {
    assert PartAt(x, k, m) && PartAt(x, k, m + 1);
  }

  lemma GapBetween(sum: real, x: Expansion, t: nat -> nat, m: nat, k: nat, part: real, left: real, e: real)
    requires sum == part * (t(k) as real * x.step(k) - t(k + 1) as real) - left * t(k) as real
    requires 0.0 <= part <= e && 0.0 <= left <= x.weight(m + 1)
    requires LosesAtMostOne(x, t, k) && SmallAt(x, t, m, k)
    ensures -0.0025 <= sum <= e
  {
    StepAlgebra(sum, part, t(k) as real * x.step(k) - t(k + 1) as real, left, t(k) as real, x.weight(m + 1), e);
  }

  lemma StepBetween(x: Expansion, t: nat -> nat, m: nat, k: nat, sum: real)
    requires Expands(x) && LosesAtMostOne(x, t, k) && SmallAt(x, t, m, k)
    requires sum == Parts(x, m, k + 1) * (t(k) as real * x.step(k) - t(k + 1) as real)
                    - (x.step(k) * x.part(k + 1, m)) * t(k) as real
    ensures -0.0025 <= sum <= Exp(x, m)
  {
    PartsBounds(x, m, k + 1);
    LeftOutBetween(x, m, k);
    GapBetween(sum, x, t, m, k, Parts(x, m, k + 1), x.step(k) * x.part(k + 1, m), Exp(x, m));
  }

  /** A loss enters the gap with at most its part; the gap of the next tail enters with its sign turned. */
  lemma GapStep(x: Expansion, t: nat -> nat, n: nat, m: nat, k: nat)
    requires Expands(x) && k < n && LosesAtMostOne(x, t, k) && SmallAt(x, t, m, k)
    ensures -0.0025 <= Gap(x, t, n, m, k) + Gap(x, t, n, m, k + 1) <= Exp(x, m)
  {
    GapSum(x, t, n, m, k);
    StepBetween(x, t, m, k, Gap(x, t, n, m, k) + Gap(x, t, n, m, k + 1));
  }

  /** Half of n times e on either side, and next to nothing more. */
  ghost predicate Within(gap: real, n: nat, e: real) {
    -Times(n / 2, e) - Times(n, 0.0025) <= gap <= Times((n + 1) / 2, e) + Times(n, 0.0025)
  }

  /** Turning the sign swaps the two halves. */
  lemma WithinStep(gap: real, next: real, n: nat, e: real)
    requires Within(next, n, e) && -0.0025 <= gap + next <= e
    ensures Within(gap, n + 1, e)
  {
    assert (n + 1 + 1) / 2 == n / 2 + 1;
  }

  /** What neighbours add up to bounds a sequence that ends at zero. */
  lemma {:induction false} GapsWithin(g: nat -> real, n: nat, k: nat, e: real)
    requires k <= n && g(n) == 0.0
    requires forall j :: 0 <= j < n ==> -0.0025 <= g(j) + g(j + 1) <= e
    ensures Within(g(k), n - k, e)
    decreases n - k
  {
    if k < n {
      GapsWithin(g, n, k + 1, e);
      WithinStep(g(k), g(k + 1), n - k - 1, e);
    }
  }

  lemma LastGap(x: Expansion, t: nat -> nat, n: nat, m: nat)
    requires t(n) == 0
    ensures Gap(x, t, n, m, n) == 0.0
  {
    assert Tail(t, n, n + 1) == 0 && Tail(t, n, n) == 0;
  }

  /** An alternating sum of n terms with such losses is t(0) / e^z, up to half of n. */
  lemma TailIsExponential(x: Expansion, t: nat -> nat, n: nat, m: nat)
    requires Expands(x) && t(n) == 0
    requires forall j :: 0 <= j < n ==> LosesAtMostOne(x, t, j)
    requires forall j :: 0 <= j < n ==> SmallAt(x, t, m, j)
    ensures Within(Gap(x, t, n, m, 0), n, Exp(x, m))
  {
    var g := (k: nat) => Gap(x, t, n, m, k);
    forall j | 0 <= j < n
      ensures -0.0025 <= g(j) + g(j + 1) <= Exp(x, m)
    {
      GapStep(x, t, n, m, j);
    }
    LastGap(x, t, n, m);
    GapsWithin(g, n, 0, Exp(x, m));
  }

  // ---- the expansion of an exponent

  /** z^i / i! */
  ghost function Weight(i: nat, z: real): real {
    if i == 0 then 1.0 else Weight(i - 1, z) * z / i as real
  }

  ghost function Part(k: nat, i: nat, z: real): real {
    if i == 0 then 1.0 else Weight(i, z) * k as real / (k as real + i as real)
  }

  ghost function ExpansionOf(z: real): Expansion {
    Expansion(z, (i: nat) => Weight(i, z), (k: nat) => z / (k as real + 1.0), (k: nat, i: nat) => Part(k, i, z))
  }

  lemma {:induction false} WeightPositive(i: nat, z: real)
    requires 0.0 <= z
    ensures 0.0 <= Weight(i, z)
  {
    if i > 0 { WeightPositive(i - 1, z); }
  }

  lemma PartOfWeight(w: real, k: real, i: real, p: real)
    requires 0.0 <= w && 0.0 <= k && 0.0 < i && p * (k + i) == w * k
    ensures 0.0 <= p <= w && (k == 0.0 ==> p == 0.0)
  {
    RealMono(0.0, w, k);
    RealCancel(0.0, p, k + i);
    RealMono(k, k + i, w);
    RealCancel(p, w, k + i);
  }

  lemma PartTimes(k: nat, i: nat, z: real)
    ensures 0 < k + i ==> Part(k, i, z) * (k as real + i as real) == Weight(i, z) * k as real
  {
  }

  lemma PartBetween(k: nat, i: nat, z: real)
    requires 0.0 <= z
    ensures 0.0 <= Part(k, i, z) <= Weight(i, z) && (k == 0 && 0 < i ==> Part(k, i, z) == 0.0)
  {
    if i > 0 {
      PartTimes(k, i, z);
      PartBetweenBy(k, i, z, Part(k, i, z));
    }
  }

  lemma PartBetweenBy(k: nat, i: nat, z: real, p: real)
    requires 0.0 <= z && 0 < i && p * (k as real + i as real) == Weight(i, z) * k as real
    ensures 0.0 <= p <= Weight(i, z) && (k == 0 ==> p == 0.0)
  {
    WeightPositive(i, z);
    PartOfWeight(Weight(i, z), k as real, i as real, p);
  }

  /** k parts of the next weight, and the rest of it from the weight before. */
  lemma WholeAlgebra(w: real, w': real, z: real, k: real, i: real, q: real, p: real, p': real)
    requires 0.0 <= k && 0.0 <= i && q * (k + 1.0) == z && w' * (i + 1.0) == w * z
    requires p * (k + i + 1.0) == w' * k && p' * (k + i + 1.0) == w * (k + 1.0)
    ensures p + q * p' == w'
  {
    var d := k + i + 1.0;
    assert (q * p') * d == q * (p' * d) == q * (w * (k + 1.0)) == w * (q * (k + 1.0));
    assert (p + q * p') * d == p * d + (q * p') * d == w' * d;
    RealCancelEqual(p + q * p', w', d);
  }

  lemma WholeWeight(k: nat, i: nat, z: real)
    ensures Part(k, i + 1, z) + z / (k as real + 1.0) * Part(k + 1, i, z) == Weight(i + 1, z)
  {
    PartTimes(k, i + 1, z);
    PartTimes(k + 1, i, z);
    WholeAlgebra(Weight(i, z), Weight(i + 1, z), z, k as real, i as real, z / (k as real + 1.0),
                 Part(k, i + 1, z), Part(k + 1, i, z));
  }

  lemma ExpansionExpands(z: real)
    requires 0.0 <= z
    ensures Expands(ExpansionOf(z))
  {
    var x := ExpansionOf(z);
    forall i: nat
      ensures WeightAt(x, i)
    {
      WeightPositive(i, z);
    }
    forall k: nat
      ensures StepAt(x, k)
    {
      PartBetween(0, k, z);
    }
    forall k: nat, i: nat
      ensures PartAt(x, k, i)
    {
      PartBetween(k, i, z);
      WholeWeight(k, i, z);
    }
  }

  // ---- the series

  /** z is (x - x_ideal) * ln 2 / d. */
  ghost predicate IsExponent(p: Param, z: real) {
    Valid(p) && 0 < Accuracy2(p) && z * Accuracy2(p) as real == Factor(p) as real
  }

  ghost function Exponent(p: Param): (z: real)
    requires Valid(p)
    ensures IsExponent(p, z)
  {
    MulMonoBoth(1, p.accuracy, 1, p.accuracy);
    Factor(p) as real / Accuracy2(p) as real
  }

  lemma QuotientAtMost(z: real, a: real, f: real, c: real)
    requires 0.0 < a && z * a == f && f <= c * a
    ensures z <= c
  {
    RealCancel(z, c, a);
  }

  lemma QuotientAtLeast(z: real, a: real, f: real, c: real)
    requires 0.0 < a && z * a == f && c * a <= f
    ensures c <= z
  {
    RealCancel(c, z, a);
  }

  lemma ExponentBounds(p: Param, z: real)
    requires IsExponent(p, z)
    ensures 0.0 <= z
    ensures Factor(p) <= 70 * Accuracy2(p) ==> z <= 70.0
    ensures Accuracy2(p) <= Factor(p) ==> 1.0 <= z
    ensures 20 * Accuracy2(p) <= Factor(p) ==> 20.0 <= z
  {
    var a, f := Accuracy2(p), Factor(p);
    QuotientAtLeast(z, a as real, f as real, 0.0);
    if f <= 70 * a { QuotientAtMost(z, a as real, f as real, 70.0); }
    if a <= f { QuotientAtLeast(z, a as real, f as real, 1.0); }
    if 20 * a <= f { QuotientAtLeast(z, a as real, f as real, 20.0); }
  }

  lemma FactorAtMost70(p: Param)
    requires ExponentAtMost70(p)
    ensures Factor(p) <= 70 * Accuracy2(p)
  {
    MulMonoBoth(Excess(p), p.accuracy, p.ln2DivD, 70 * p.accuracy);
    MulSwap(p.accuracy, 70, p.accuracy);
  }

  lemma TermAtFloor(k: nat, p: Param)
    requires Valid(p) && 0 < Accuracy2(p) && 0 < k
    ensures Term(k, p) * (k * Accuracy2(p)) <= Term(k - 1, p) * Factor(p) <= (Term(k, p) + 1) * (k * Accuracy2(p))
  {
    MulMonoBoth(1, k, 1, Accuracy2(p));
    DivBounds(Term(k - 1, p) * Factor(p), k * Accuracy2(p));
    MulPlusOne(Term(k, p), k * Accuracy2(p));
  }

  lemma ToReals(n: int, k: int, a: int, t: int, f: int)
    requires n * (k * a) <= t * f <= (n + 1) * (k * a)
    ensures n as real * (k as real * a as real) <= t as real * f as real <= (n as real + 1.0) * (k as real * a as real)
  {
    RealProduct(k, a);
    RealProduct(n, k * a);
    RealProduct(n + 1, k * a);
    RealProduct(t, f);
  }

  lemma LossAlgebra(t: real, z: real, k: real, a: real, f: real, n: real)
    requires 0.0 < a && z * a == f && n * (k * a) <= t * f <= (n + 1.0) * (k * a)
    ensures 0.0 <= t * z - n * k <= k
  {
    assert (t * z) * a == t * f;
    assert (n * k) * a == n * (k * a);
    assert ((n + 1.0) * k) * a == (n + 1.0) * (k * a);
    RealCancel(n * k, t * z, a);
    RealCancel(t * z, (n + 1.0) * k, a);
    assert (n + 1.0) * k == n * k + k;
  }

  lemma LossTimes(t: real, t': real, z: real, q: real, c: real, d: real)
    requires q * c == z && d == t * q - t'
    ensures d * c == t * z - t' * c
  {
    assert t * q * c == t * (q * c);
  }

  lemma LossBetween(t: real, t': real, z: real, q: real, c: real, d: real)
    requires 0.0 < c && q * c == z && 0.0 <= t * z - t' * c <= c && d == t * q - t'
    ensures 0.0 <= d <= 1.0
  {
    LossTimes(t, t', z, q, c, d);
    RealCancel(0.0, d, c);
    RealCancel(d, 1.0, c);
  }

  lemma LossOfFloor(n: nat, k: nat, a: nat, t: nat, f: nat, z: real, q: real)
    requires 0 < a && 0 < k && z * a as real == f as real && q * k as real == z
    requires n * (k * a) <= t * f <= (n + 1) * (k * a)
    ensures 0.0 <= t as real * q - n as real <= 1.0
  {
    ToReals(n, k, a, t, f);
    LossAlgebra(t as real, z, k as real, a as real, f as real, n as real);
    LossBetween(t as real, n as real, z, q, k as real, t as real * q - n as real);
  }

  function Terms(p: Param): nat -> nat { (k: nat) => Term(k, p) }

  /** Term k + 1 is f / ((k + 1) * a) times term k, rounded down. */
  ghost predicate FloorAt(t: nat -> nat, a: nat, f: nat, k: nat) {
    t(k + 1) * ((k + 1) * a) <= t(k) * f <= (t(k + 1) + 1) * ((k + 1) * a)
  }

  lemma LossesOf(t: nat -> nat, a: nat, f: nat, k: nat, x: Expansion)
    requires Expands(x) && 0 < a && x.z * a as real == f as real && FloorAt(t, a, f, k)
    ensures LosesAtMostOne(x, t, k)
  {
    assert StepAt(x, k);
    LossOfFloor(t(k + 1), k + 1, a, t(k), f, x.z, x.step(k));
  }

  lemma FloorsOf(p: Param, k: nat)
    requires Valid(p) && 0 < Accuracy2(p)
    ensures FloorAt(Terms(p), Accuracy2(p), Factor(p), k)
  {
    TermAtFloor(k + 1, p);
  }

  /** The alternating sum of the terms up to the k-th, the first one positive. */
  ghost function Alternating(t: nat -> nat, k: nat): int {
    var term: int := t(k);
    if k == 0 then term else Alternating(t, k - 1) + if k % 2 == 0 then term else -term
  }

  lemma {:induction false} AlternatingAndTail(t: nat -> nat, n: nat, k: nat)
    requires k <= n
    ensures Tail(t, n, 0) == Alternating(t, k) + if k % 2 == 0 then -Tail(t, n, k + 1) else Tail(t, n, k + 1)
  {
    if k > 0 { AlternatingAndTail(t, n, k - 1); }
  }

  lemma {:induction false} SignedIsAlternating(p: Param, k: nat)
    ensures Alternating(Terms(p), k) == Signed(k, p)
  {
    if k > 0 { SignedIsAlternating(p, k - 1); }
  }

  ghost function TermSum(t: nat -> nat, k: nat): nat {
    if k == 0 then t(0) else TermSum(t, k - 1) + t(k)
  }

  lemma {:induction false} TermBelowSum(t: nat -> nat, j: nat, k: nat)
    requires j <= k
    ensures t(j) <= TermSum(t, k)
    decreases k
  {
    if j < k { TermBelowSum(t, j, k - 1); }
  }

  lemma FloorsLose(t: nat -> nat, a: nat, f: nat, x: Expansion, n: nat)
    requires Expands(x) && 0 < a && x.z * a as real == f as real && forall k: nat :: FloorAt(t, a, f, k)
    ensures forall j :: 0 <= j < n ==> LosesAtMostOne(x, t, j)
  {
    forall j | 0 <= j < n
      ensures LosesAtMostOne(x, t, j)
    {
      assert FloorAt(t, a, f, j);
      LossesOf(t, a, f, j, x);
    }
  }

  lemma TermsSmall(x: Expansion, t: nat -> nat, n: nat, m: nat)
    requires Expands(x) && x.weight(m + 1) * (400.0 * TermSum(t, n) as real) <= 1.0
    ensures forall j :: 0 <= j < n ==> SmallAt(x, t, m, j)
  {
    assert WeightAt(x, m + 1);
    forall j | 0 <= j < n
      ensures SmallAt(x, t, m, j)
    {
      TermBelowSum(t, j, n);
      SmallProduct(x.weight(m + 1), t(j) as real, TermSum(t, n) as real);
    }
  }

  lemma SmallProduct(w: real, t: real, sum: real)
    requires 0.0 <= w && t <= sum && w * (400.0 * sum) <= 1.0
    ensures w * t <= 0.0025
  {
    RealMono(t, sum, w);
    assert w * (400.0 * sum) == 400.0 * (sum * w);
  }

  lemma TailIsAlternating(t: nat -> nat, n: nat)
    ensures Tail(t, n, 0) == Alternating(t, n)
  {
    AlternatingAndTail(t, n, n);
    assert Tail(t, n, n + 1) == 0;
  }

  /** The terms with such losses, the n-th of them zero: their alternating sum is the first over e^z, up to half
      of n. */
  lemma AlternatingNear(x: Expansion, t: nat -> nat, n: nat, m: nat, signed: int, e: real, sum: real)
    requires Expands(x) && t(n) == 0 && signed == Alternating(t, n) && e == Exp(x, m) && sum == signed as real * e
    requires forall j :: 0 <= j < n ==> LosesAtMostOne(x, t, j)
    requires forall j :: 0 <= j < n ==> SmallAt(x, t, m, j)
    ensures Within(sum - t(0) as real, n, e)
  {
    TailIsExponential(x, t, n, m);
    FirstGap(x, t, n, m, signed, e, sum);
  }

  lemma FirstGap(x: Expansion, t: nat -> nat, n: nat, m: nat, signed: int, e: real, sum: real)
    requires Expands(x) && signed == Alternating(t, n) && e == Exp(x, m) && sum == signed as real * e
    ensures Gap(x, t, n, m, 0) == sum - t(0) as real
  {
    TailIsAlternating(t, n);
    PartsOfFirst(x, m);
    FirstGapAlgebra(Tail(t, n, 0), signed, e, Parts(x, m, 0), t(0) as real, sum);
  }

  lemma FirstGapAlgebra(tail: int, alternating: int, e: real, part: real, t: real, sum: real)
    requires tail == alternating && part == 1.0 && sum == alternating as real * e
    ensures tail as real * e - part * t == sum - t
  {
  }

  // ---- the series is the exponential

  /** s is within half of n units of a / e^z, with e^z summed up to m, and next to nothing more. */
  ghost predicate NearAt(x: Expansion, m: nat, s: nat, a: nat, n: nat) {
    Within(Times(s, Exp(x, m)) - a as real, n, Exp(x, m))
  }

  /** The same with all partial sums of e^z but finitely many. */
  ghost predicate Near(x: Expansion, s: nat, a: nat, n: nat) {
    exists m0: nat :: NearFrom(x, m0, s, a, n)
  }

  ghost predicate NearFrom(x: Expansion, m0: nat, s: nat, a: nat, n: nat) {
    forall m: nat :: m0 <= m ==> NearAt(x, m, s, a, n)
  }

  lemma PositivePart(signed: int, e: real, sum: real, a: nat, n: nat)
    requires 1.0 <= e && sum == signed as real * e && Within(sum - a as real, n, e)
    ensures Within(Times(Max(signed, 0), e) - a as real, n, e)
  {
    if signed < 0 {
      RealMono(signed as real, 0.0, e);
      TimesNotNegative((n + 1) / 2, e);
      TimesNotNegative(n, 0.0025);
    } else {
      TimesIsProduct(signed, e);
    }
  }

  lemma PositiveNear(x: Expansion, t: nat -> nat, n: nat, m: nat)
    requires Expands(x) && t(n) == 0
    requires forall j :: 0 <= j < n ==> LosesAtMostOne(x, t, j)
    requires forall j :: 0 <= j < n ==> SmallAt(x, t, m, j)
    ensures NearAt(x, m, Max(Alternating(t, n), 0), t(0), n)
  {
    var signed, e := Alternating(t, n), Exp(x, m);
    var sum := signed as real * e;
    AlternatingNear(x, t, n, m, signed, e, sum);
    ExpBounds(x, m);
    PositivePart(signed, e, sum, t(0), n);
  }

  lemma AlternatingIsNear(x: Expansion, t: nat -> nat, n: nat)
    requires Expands(x) && x.z <= 70.0 && t(n) == 0
    requires forall j :: 0 <= j < n ==> LosesAtMostOne(x, t, j)
    ensures Near(x, Max(Alternating(t, n), 0), t(0), n)
  {
    var m0 := WeightsBelow(x, 400.0 * TermSum(t, n) as real);
    forall m: nat | m0 <= m
      ensures NearAt(x, m, Max(Alternating(t, n), 0), t(0), n)
    {
      TermsSmall(x, t, n, m);
      PositiveNear(x, t, n, m);
    }
    assert NearFrom(x, m0, Max(Alternating(t, n), 0), t(0), n);
  }

  lemma SeriesUntil(p: Param, n: nat)
    requires Valid(p) && 0 < n <= LAST && Term(n, p) == 0
    ensures SeriesPart(p) == Max(Alternating(Terms(p), n), 0)
  {
    ZeroTermEnds(n, LAST, p);
    ZeroTermEnds(n, n, p);
    SignedIsAlternating(p, n);
  }

  lemma TermsLose(p: Param, z: real, n: nat)
    requires IsExponent(p, z) && 0.0 <= z
    ensures Expands(ExpansionOf(z)) && forall j :: 0 <= j < n ==> LosesAtMostOne(ExpansionOf(z), Terms(p), j)
  {
    ExpansionExpands(z);
    forall k: nat
      ensures FloorAt(Terms(p), Accuracy2(p), Factor(p), k)
    {
      FloorsOf(p, k);
    }
    FloorsLose(Terms(p), Accuracy2(p), Factor(p), ExpansionOf(z), n);
  }

  /** If term n is zero the result is A * e^-z up to half of n units. */
  lemma SeriesNear(p: Param, n: nat)
    requires ExponentAtMost70(p) && 0 < n <= LAST && Term(n, p) == 0
    ensures Near(ExpansionOf(Exponent(p)), SeriesPart(p), p.accuracy, n)
  {
    var z := Exponent(p);
    FactorAtMost70(p);
    ExponentBounds(p, z);
    TermsLose(p, z, n);
    SeriesUntil(p, n);
    AlternatingIsNear(ExpansionOf(z), Terms(p), n);
  }

  /** For exponents up to 70 and accuracies up to 10^18 the computed result differs from A * e^-z by at most
      150 units, one for every second term, and next to nothing more. */
  lemma SeriesIsExponential(p: Param)
    requires ExponentAtMost70(p) && p.accuracy <= QUINTILLION
    ensures Near(ExpansionOf(Exponent(p)), SeriesPart(p), p.accuracy, LAST)
  {
    ZeroTermIsMet(p);
    SeriesNear(p, LAST);
  }
}
