/** Totals over accounts. */
module Sums {
  import opened Types

  /** An amount for each account, such as how many transactions it has. */
  type Sizes = map<Address, nat>

  ghost function Sum(m: Sizes): nat
    decreases m.Keys
  {
    if m == map[] then 0
    else
      assert m.Keys != {};
      var a :| a in m;
      assert (m - {a}).Keys == m.Keys - {a};
      m[a] + Sum(m - {a})
  }

  lemma {:induction false} SumRemove(m: Sizes, a: Address)
    requires a in m
    ensures Sum(m) == m[a] + Sum(m - {a})
    decreases m.Keys
  {
    assert m.Keys != {};
    var b :| b in m && Sum(m) == m[b] + Sum(m - {b});
    if b != a {
      assert (m - {b}).Keys == m.Keys - {b} && (m - {a}).Keys == m.Keys - {a};
      SumRemove(m - {b}, a);
      SumRemove(m - {a}, b);
      assert m - {b} - {a} == m - {a} - {b};
    }
  }

  lemma SumUpdate(m: Sizes, a: Address, n: nat)
    requires a in m
    ensures Sum(m[a := n]) == Sum(m) - m[a] + n
  {
    SumRemove(m, a);
    SumRemove(m[a := n], a);
    assert m[a := n] - {a} == m - {a};
  }

  lemma {:induction false} SumMonotone(m: Sizes, m': Sizes)
    requires m.Keys == m'.Keys && forall a :: a in m ==> m[a] <= m'[a]
    ensures Sum(m) <= Sum(m')
    decreases m.Keys
  {
    if m == map[] {
      assert m' == map[];
    } else {
      assert m.Keys != {};
      var a :| a in m;
      SumRemove(m, a);
      SumRemove(m', a);
      assert (m - {a}).Keys == m.Keys - {a} && (m' - {a}).Keys == m'.Keys - {a};
      SumMonotone(m - {a}, m' - {a});
    }
  }

  lemma SizeBelowSum(m: Sizes, a: Address)
    requires a in m
    ensures m[a] <= Sum(m)
  {
    SumRemove(m, a);
  }

  /** The amount of an account that may be missing. */
  function Of(m: Sizes, a: Address): nat {
    if a in m then m[a] else 0
  }

  /** If no amount grows, the total drops by at least what one account loses. */
  lemma {:induction false} SumDrops(m: Sizes, m': Sizes, a: Address)
    requires m'.Keys <= m.Keys && forall b :: b in m' ==> m'[b] <= m[b]
    ensures Sum(m') + Of(m, a) <= Sum(m) + Of(m', a)
    ensures (forall b :: b in m && b != a ==> b in m' && m'[b] == m[b]) ==> Sum(m') + Of(m, a) == Sum(m) + Of(m', a)
    decreases m.Keys
  {
    if m == map[] {
      assert m' == map[];
    } else {
      assert m.Keys != {};
      var b :| b in m;
      var n, n' := m - {b}, m' - {b};
      assert n.Keys == m.Keys - {b};
      SumRemove(m, b);
      if b in m' {
        SumRemove(m', b);
      } else {
        assert n' == m';
      }
      SumDrops(n, n', a);
    }
  }
}
