/** Fair truncation of the executable lists (the second half of promoteExecutables in core/tx_pool.go). The
    rounds of the source all come down to one number: the level every remote account is cut to. */
module PoolLevels {
  import opened Types
  import opened PoolCore
  import opened Sums

  function SizesOf(m: Lists): Sizes {
    map a | a in m :: |m[a]|
  }

  /** Add up the sizes in whatever order the map is iterated. */
  method Count(m: Lists) returns (n: nat)
    ensures n == Sum(SizesOf(m))
  {
    n := 0;
    var todo := m.Keys;
    ghost var left := SizesOf(m);
    while todo != {}
      invariant left.Keys == todo && todo <= m.Keys && n + Sum(left) == Sum(SizesOf(m))
      invariant forall a :: a in left ==> left[a] == |m[a]|
    {
      var a :| a in todo;
      SumRemove(left, a);
      n := n + |m[a]|;
      todo, left := todo - {a}, left - {a};
    }
    assert left == map[];
  }

  /** Every remote account cut to the level. */
  ghost function Levelled(m: Sizes, locals: set<Address>, level: nat): Sizes {
    map a | a in m :: if a in locals || m[a] <= level then m[a] else level
  }

  /** The sizes at a level at which, but for one more transaction per account, they would not fit. */
  ghost predicate AtLevel(m: Sizes, locals: set<Address>, slots: nat, limit: nat, level: nat, m': Sizes) {
    m' == Levelled(m, locals, level) && level >= slots && Sum(Levelled(m, locals, level + 1)) > limit
  }

  /** The reference for truncation: nothing if everything fits; otherwise the remote accounts are cut to the
      largest level, but not below `slots`, at which everything fits. */
  ghost predicate Truncated(m: Sizes, locals: set<Address>, slots: nat, limit: nat, level: nat, m': Sizes) {
    if Sum(m) <= limit then m' == m
    else AtLevel(m, locals, slots, limit, level, m') && (Sum(m') <= limit || level == slots)
  }

  /** The level is the largest that fits: every higher one is too high. */
  lemma LevelIsLargest(m: Sizes, locals: set<Address>, slots: nat, limit: nat, level: nat, m': Sizes, higher: nat)
    requires AtLevel(m, locals, slots, limit, level, m') && higher > level
    ensures Sum(Levelled(m, locals, higher)) > limit
  {
    SumMonotone(Levelled(m, locals, level + 1), Levelled(m, locals, higher));
  }

  /** Hence the outcome is determined: two truncations of the same pool agree. */
  lemma TruncationIsUnique(m: Sizes, locals: set<Address>, slots: nat, limit: nat, l1: nat, m1: Sizes, l2: nat,
                           m2: Sizes)
    requires Truncated(m, locals, slots, limit, l1, m1) && Truncated(m, locals, slots, limit, l2, m2)
    ensures m1 == m2
  {
    if Sum(m) > limit {
      if l1 < l2 {
        LevelIsLargest(m, locals, slots, limit, l1, m1, l2);
      }
      if l2 < l1 {
        LevelIsLargest(m, locals, slots, limit, l2, m2, l1);
      }
    }
  }

  /** In numbers: a local account keeps everything and every other at least `slots` of what it had; if the total is
      still over the limit, no remote account has more than `slots`; and nobody loses anything if all fitted. */
  lemma TruncatedInNumbers(m: Sizes, locals: set<Address>, slots: nat, limit: nat, level: nat, m': Sizes)
    requires Truncated(m, locals, slots, limit, level, m')
    ensures m'.Keys == m.Keys && forall a :: a in m ==>
              && m'[a] <= m[a] && (a in locals ==> m'[a] == m[a]) && (m'[a] < m[a] ==> m'[a] >= slots)
    ensures Sum(m') <= limit || forall a :: a in m && a !in locals ==> m'[a] <= slots
    ensures Sum(m) <= limit ==> m' == m
  {
    hide Sum;
  }

  /******* The rounds *******/

  predicate Spammer(m: Sizes, locals: set<Address>, slots: nat, a: Address) {
    a in m && a !in locals && m[a] > slots
  }

  /** The large remote accounts: those being cut have at least `level`, the others at most `low`. */
  ghost predicate Parted(m: Sizes, locals: set<Address>, slots: nat, cut: set<Address>, rest: set<Address>, level: nat,
                         low: nat) {
    && cut !! rest && slots <= low <= level
    && (forall a :: Spammer(m, locals, slots, a) <==> a in cut || a in rest)
    && (forall a :: a in cut ==> m[a] >= level)
    && (forall a :: a in rest ==> m[a] <= low)
  }

  /** Before the first cut any level above all sizes will do. */
  lemma LevelStart(m: Sizes, locals: set<Address>, slots: nat, limit: nat, level: nat)
    requires Sum(m) > limit && level >= slots && forall a :: a in m && a !in locals ==> m[a] <= level
    ensures AtLevel(m, locals, slots, limit, level, m)
  {
    hide Sum;
    assert Levelled(m, locals, level) == m;
    assert Levelled(m, locals, level + 1) == m;
  }

  ghost function Lowered(m: Sizes, cut: set<Address>): Sizes {
    map a | a in m :: if a in cut && m[a] > 0 then m[a] - 1 else m[a]
  }

  ghost predicate Distinct(accounts: seq<Address>) {
    forall i, j :: 0 <= i < j < |accounts| ==> accounts[i] != accounts[j]
  }

  ghost function Members(accounts: seq<Address>): set<Address> {
    set a | a in accounts
  }

  lemma LowerNone(m: Sizes)
    ensures Lowered(m, Members([])) == m
  {
  }

  /** One more account of a round. */
  lemma LowerNext(m: Sizes, accounts: seq<Address>, i: nat)
    requires i < |accounts| && Distinct(accounts) && accounts[i] in m && m[accounts[i]] > 0
    ensures var before, after := Lowered(m, Members(accounts[..i])), Lowered(m, Members(accounts[..i + 1]));
            && accounts[i] in before && before[accounts[i]] == m[accounts[i]]
            && after == before[accounts[i] := m[accounts[i]] - 1]
            && Sum(after) == Sum(before) - 1
  {
    var a, before := accounts[i], Lowered(m, Members(accounts[..i]));
    assert accounts[..i + 1] == accounts[..i] + [a];
    assert a !in accounts[..i];
    assert Lowered(m, Members(accounts[..i + 1])) == before[a := m[a] - 1];
    SumUpdate(before, a, m[a] - 1);
  }

  lemma {:induction false} SumLowered(m: Sizes, cut: set<Address>)
    requires forall a :: a in cut ==> a in m && m[a] > 0
    ensures Sum(Lowered(m, cut)) == Sum(m) - |cut|
  {
    if cut == {} {
      assert Lowered(m, cut) == m;
    } else {
      hide Sum;
      var a :| a in cut;
      var rest := cut - {a};
      SumLowered(m, rest);
      SumUpdate(Lowered(m, rest), a, m[a] - 1);
      assert Lowered(m, cut) == Lowered(m, rest)[a := m[a] - 1];
    }
  }

  /** Too many are dropped by less than one round over the accounts that were cut. */
  lemma OverEvictsLessThanARound(m: Sizes, locals: set<Address>, slots: nat, limit: nat, level: nat, m': Sizes,
                                 cut: set<Address>)
    requires AtLevel(m, locals, slots, limit, level, m')
    requires forall a :: a in cut <==> a in m && a !in locals && m[a] > level
    ensures Sum(m') + |cut| > limit
  {
    hide Sum;
    var above := Levelled(m, locals, level + 1);
    SumLowered(above, cut);
    assert Lowered(above, cut) == m';
  }

  /** While too many are left, taking one from each account being cut lowers the level by one. */
  lemma LowerLevel(m: Sizes, locals: set<Address>, slots: nat, limit: nat, level: nat, m': Sizes,
                   cut: set<Address>, rest: set<Address>, low: nat)
    requires AtLevel(m, locals, slots, limit, level, m') && Sum(m') > limit
    requires Parted(m, locals, slots, cut, rest, level, low) && level > low
    ensures AtLevel(m, locals, slots, limit, level - 1, Lowered(m', cut))
    ensures Parted(m, locals, slots, cut, rest, level - 1, low)
  {
    var lower := Levelled(m, locals, level - 1);
    forall a | a in m
      ensures Lowered(m', cut)[a] == lower[a]
    {
      assert Spammer(m, locals, slots, a) <==> a in cut || a in rest;
      assert m'[a] == if a in locals || m[a] <= level then m[a] else level;
    }
    assert Lowered(m', cut) == lower;
  }

  /** An account being cut has exactly the level. */
  lemma CutHasLevel(m: Sizes, locals: set<Address>, slots: nat, limit: nat, level: nat, m': Sizes,
                    cut: set<Address>, rest: set<Address>, low: nat, a: Address)
    requires AtLevel(m, locals, slots, limit, level, m') && Parted(m, locals, slots, cut, rest, level, low)
    requires a in cut || a in rest
    ensures a in m' && m'[a] == (if a in cut then level else m[a]) && m'[a] >= slots
  {
    assert Spammer(m, locals, slots, a);
  }

  /** The next largest account joins. */
  lemma PartNext(m: Sizes, locals: set<Address>, slots: nat, cut: set<Address>, rest: set<Address>, level: nat,
                 a: Address)
    requires Parted(m, locals, slots, cut, rest, level, level) && a in rest && forall b :: b in rest ==> m[b] <= m[a]
    ensures Parted(m, locals, slots, cut, rest, level, m[a])
  {
    assert Spammer(m, locals, slots, a);
  }

  /** Once the level has come down to it, it is cut like the others. */
  lemma PartJoin(m: Sizes, locals: set<Address>, slots: nat, cut: set<Address>, rest: set<Address>, level: nat,
                 a: Address)
    requires a in m && a in rest && level == m[a] && Parted(m, locals, slots, cut, rest, level, level)
    ensures Parted(m, locals, slots, cut + {a}, rest - {a}, level, level)
  {
  }

  lemma PartStart(m: Sizes, locals: set<Address>, slots: nat, limit: nat, spammers: set<Address>)
    requires Sum(m) > limit && forall a :: a in spammers <==> Spammer(m, locals, slots, a)
    ensures var level := Sum(m) + slots;
            AtLevel(m, locals, slots, limit, level, m) && Parted(m, locals, slots, Members([]), spammers, level, level)
  {
    hide Sum, AtLevel;
    forall a | a in m
      ensures m[a] <= Sum(m)
    {
      SizeBelowSum(m, a);
    }
    LevelStart(m, locals, slots, limit, Sum(m) + slots);
  }

  /** With no account waiting, only the guaranteed slots bound the level. */
  lemma PartLast(m: Sizes, locals: set<Address>, slots: nat, cut: set<Address>, level: nat)
    requires Parted(m, locals, slots, cut, {}, level, level)
    ensures Parted(m, locals, slots, cut, {}, level, slots)
  {
  }

  /** Waiting accounts have not been cut, so the largest of them is the largest originally. */
  lemma WaitingUncut(m: Sizes, locals: set<Address>, slots: nat, limit: nat, level: nat, m': Sizes,
                     cut: set<Address>, rest: set<Address>)
    requires AtLevel(m, locals, slots, limit, level, m') && Parted(m, locals, slots, cut, rest, level, level)
    ensures forall a :: a in rest ==> a in m && a in m' && m'[a] == m[a] && a !in cut && m[a] > slots
  {
    forall a | a in rest
      ensures a in m && a in m' && m'[a] == m[a] && a !in cut && m[a] > slots
    {
      CutHasLevel(m, locals, slots, limit, level, m', cut, rest, level, a);
      assert Spammer(m, locals, slots, a);
    }
  }

  lemma SizesKnown(p: Lists)
    ensures SizesOf(p).Keys == p.Keys && forall a :: a in p ==> SizesOf(p)[a] == |p[a]|
  {
  }

  lemma NoneDistinct()
    ensures Distinct([])
  {
  }

  lemma FloorAboveSlots(m: Sizes, locals: set<Address>, slots: nat, cut: set<Address>, rest: set<Address>, level: nat,
                        low: nat)
    requires Parted(m, locals, slots, cut, rest, level, low)
    ensures slots <= low <= level
  {
  }

  lemma MembersSnoc(accounts: seq<Address>, a: Address)
    requires Distinct(accounts) && a !in Members(accounts)
    ensures Members(accounts + [a]) == Members(accounts) + {a} && Distinct(accounts + [a])
  {
    assert forall i :: 0 <= i < |accounts| ==> accounts[i] in Members(accounts);
  }

  /** Before anything is cut, the level can be taken to be the largest size. */
  lemma FirstLevel(m: Sizes, locals: set<Address>, slots: nat, limit: nat, rest: set<Address>, level: nat, a: Address)
    requires Sum(m) > limit && Parted(m, locals, slots, Members([]), rest, level, level)
    requires a in rest && a in m && forall b :: b in rest ==> m[b] <= m[a]
    ensures Parted(m, locals, slots, Members([]), rest, m[a], m[a]) && AtLevel(m, locals, slots, limit, m[a], m)
  {
    assert Spammer(m, locals, slots, a);
    forall b | b in m && b !in locals
      ensures m[b] <= m[a]
    {
      assert Spammer(m, locals, slots, b) <==> b in rest;
    }
    LevelStart(m, locals, slots, limit, m[a]);
  }

  /** When there is no large remote account, the level is the guaranteed one. */
  lemma NobodyLarge(m: Sizes, locals: set<Address>, slots: nat, limit: nat, level: nat)
    requires Sum(m) > limit && Parted(m, locals, slots, Members([]), {}, level, level)
    ensures AtLevel(m, locals, slots, limit, slots, m)
  {
    forall a | a in m && a !in locals
      ensures m[a] <= slots
    {
      assert !Spammer(m, locals, slots, a);
    }
    LevelStart(m, locals, slots, limit, slots);
  }

  /** The account with most transactions, as the priority queue pops it. */
  method Largest(m: Lists, spammers: set<Address>) returns (a: Address)
    requires spammers != {} && spammers <= m.Keys
    ensures a in spammers && forall b :: b in spammers ==> |m[b]| <= |m[a]|
  {
    a :| a in spammers;
    var todo := spammers - {a};
    while todo != {}
      invariant todo <= spammers && a in spammers && forall b :: b in spammers - todo ==> |m[b]| <= |m[a]|
    {
      var b :| b in todo;
      if |m[b]| > |m[a]| {
        a := b;
      }
      todo := todo - {b};
    }
  }
}
