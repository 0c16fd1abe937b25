/** Free balances of accounts; an account without an entry has nothing. */
module Balances {
  import opened Arith
  import opened Sums

  type Free = map<nat, nat>

  function BalanceOf(free: Free, who: nat): nat {
    if who in free then free[who] else 0
  }

  function Deposited(free: Free, who: nat, value: nat): Free {
    free[who := BalanceOf(free, who) + value]
  }

  function Withdrawn(free: Free, who: nat, value: nat): Free {
    free[who := Monus(BalanceOf(free, who), value)]
  }

  /** The sum of all balances. */
  ghost function Total(free: Free): int {
    SumSet(free.Keys, (a: nat) => BalanceOf(free, a))
  }

  lemma {:induction false} TotalOver(free: Free, keys: set<nat>)
    requires free.Keys <= keys
    ensures Total(free) == SumSet(keys, (a: nat) => BalanceOf(free, a))
    decreases keys - free.Keys
  {
    var f := (a: nat) => BalanceOf(free, a);
    if keys == free.Keys {
    } else {
      SumSetOutside(free.Keys, keys, f);
    }
  }

  /** Elements where the summand vanishes do not matter. */
  lemma {:induction false} SumSetOutside(s: set<nat>, t: set<nat>, f: nat -> int)
    requires s <= t && forall x :: x in t - s ==> f(x) == 0
    ensures SumSet(t, f) == SumSet(s, f)
    decreases t - s
  {
    if t - s == {} {
      assert forall x :: x in t && x !in s ==> x in t - s;
      assert s == t;
    } else {
      var x :| x in t - s;
      SumSetInsert(s, f, x);
      SumSetOutside(s + {x}, t, f);
    }
  }

  lemma TotalUpdate(free: Free, who: nat, value: nat)
    ensures Total(free[who := value]) == Total(free) - BalanceOf(free, who) + value
  {
    var free' := free[who := value];
    var keys := free.Keys + {who};
    TotalOver(free, keys);
    TotalOver(free', keys);
    SumSetUpdate(keys, (a: nat) => BalanceOf(free, a), (a: nat) => BalanceOf(free', a), who);
  }
}
