/** Powers of natural numbers. */
module Powers {
  import opened Arith

  function Pow(m: nat, e: nat): nat {
    if e == 0 then 1 else m * Pow(m, e - 1)
  }

  lemma {:induction false} PowAdd(m: nat, a: nat, b: nat)
    ensures Pow(m, a + b) == Pow(m, a) * Pow(m, b)
    decreases a
  {
    if a > 0 {
      PowAdd(m, a - 1, b);
      MulSwap(m, Pow(m, a - 1), Pow(m, b));
    }
  }

  lemma {:induction false} PowOfOne(e: nat)
    ensures Pow(1, e) == 1
  {
    if e > 0 { PowOfOne(e - 1); }
  }

  lemma {:induction false} PowPositive(m: nat, e: nat)
    requires 0 < m
    ensures 0 < Pow(m, e)
  {
    if e > 0 {
      PowPositive(m, e - 1);
      MulMonoBoth(1, m, 1, Pow(m, e - 1));
    }
  }

  lemma {:induction false} PowMono(a: nat, b: nat, e: nat)
    requires a <= b
    ensures Pow(a, e) <= Pow(b, e)
  {
    if e > 0 {
      PowMono(a, b, e - 1);
      MulMonoBoth(a, b, Pow(a, e - 1), Pow(b, e - 1));
    }
  }

  /** (m^j)^k is m^(jk). */
  lemma {:induction false} PowOfPow(m: nat, j: nat, k: nat)
    ensures Pow(Pow(m, j), k) == Pow(m, j * k)
    decreases k
  {
    if k > 0 {
      PowOfPow(m, j, k - 1);
      PowAdd(m, j, j * (k - 1));
      MulDistrib(j, k - 1, 1);
    }
  }
}
