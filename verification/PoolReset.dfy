/** How the tracked nonces come out of a pool reset (core/tx_pool.go, reset). */
module PoolReset {
  import opened Types
  import opened Gas
  import opened SortedMap
  import opened TxList
  import opened PoolLists
  import opened PoolCore
  import opened PoolNonces

  /** An executable transaction that is dropped for its price although it has already been included. */
  ghost predicate Overtaken(p: Lists, drop: seq<Tx>, w: World, t: Tx) {
    Listed(p, t) && t in drop && t.nonce < NonceOf(w, t.from)
  }

  /** The tracked nonces after the executable lists have been walked. */
  ghost predicate NoncesSet(p: Lists, pn: Nonces, w: World, todo: set<Address>, pn': Nonces) {
    forall a {:trigger PendingNonce(pn', w, a)} ::
      PendingNonce(pn', w, a) == if a in p && a !in todo then NonceOf(w, a) + |p[a]| else PendingNonce(pn, w, a)
  }

  /** The nonce after the last transaction of a sorted gap-free list. */
  lemma LastNonce(items: Items, start: nat)
    requires Keyed(items) && GapFreeFrom(items, start) && items != map[]
    ensures |Sorted(items)| == |items| && Sorted(items)[|items| - 1].nonce + 1 == start + |items|
  {
    hide Sorted;
    SortedLength(items);
    SortedIsContents(items);
    var order, k := Sorted(items), |items| - 1;
    assert items.Keys != {};
    assert |items| == |items.Keys|;
    assert start + k in items;
    assert items[start + k] in order;
    var i :| 0 <= i < |order| && order[i] == items[start + k];
    assert order[k].nonce in items;
  }

  /** Where one account stands once the lists are cut, demoted and walked. */
  lemma AccountAfterReset(p: Lists, w: World, maxGas: nat, drop: seq<Tx>, p1: Lists, pn1: Nonces, p2: Lists,
                          pn2: Nonces, a: Address)
    requires CutDown(p, map[], w, drop, p1, pn1) && Demoting(p1, w, maxGas, p2, {})
    requires NonEmpty(p2) && NoncesSet(p2, pn1, w, {}, pn2)
    ensures TracksAt(p2, pn2, w, a)
    ensures UpToDateAt(p2, pn2, w, a) <==> !(CutFor(p, drop, a).Some? && CutFor(p, drop, a).value < NonceOf(w, a))
  {
    hide CutFor, NonEmpty, CutDown, Demoting;
    var nonce := NonceOf(w, a);
    assert CutDownAt(p, map[], w, drop, p1, pn1, a) by { CutDownHere(p, w, drop, p1, pn1, a); }
    assert ExecutableRun(Get(p1, a), nonce, BalanceOf(w, a), maxGas, Get(p2, a))
      by { DemotedHere(p1, w, maxGas, p2, a); }
    StoredNonEmpty(p2, a);
    var c := CutFor(p, drop, a);
    if c.Some? && c.value < nonce {
      EmptyBelow(Get(p, a), c.value, nonce, BalanceOf(w, a), maxGas, Get(p2, a));
    }
  }

  lemma CutDownHere(p: Lists, w: World, drop: seq<Tx>, p1: Lists, pn1: Nonces, a: Address)
    requires CutDown(p, map[], w, drop, p1, pn1)
    ensures CutDownAt(p, map[], w, drop, p1, pn1, a)
  {
  }

  lemma DemotedHere(p: Lists, w: World, maxGas: nat, p': Lists, a: Address)
    requires Demoting(p, w, maxGas, p', {})
    ensures ExecutableRun(Get(p, a), NonceOf(w, a), BalanceOf(w, a), maxGas, Get(p', a))
  {
    assert DemotingAt(p, w, maxGas, p', {}, a);
  }

  lemma StoredNonEmpty(p: Lists, a: Address)
    requires NonEmpty(p)
    ensures a in p <==> Get(p, a) != map[]
  {
  }

  /** Nothing is executable if everything lies below the state nonce. */
  lemma EmptyBelow(items: Items, cut: nat, nonce: nat, balance: nat, maxGas: nat, rest: Items)
    requires cut < nonce && ExecutableRun(BelowNonce(items, cut), nonce, balance, maxGas, rest)
    ensures rest == map[]
  {
    hide Unpayable;
    assert nonce !in rest;
    assert |rest| == 0;
  }

  /** After a reset every tracked nonce is up to date exactly if no executable transaction was overtaken. */
  lemma UpToDateAfterReset(p: Lists, w: World, maxGas: nat, drop: seq<Tx>, p1: Lists, pn1: Nonces, p2: Lists,
                           pn2: Nonces)
    requires CutDown(p, map[], w, drop, p1, pn1) && Demoting(p1, w, maxGas, p2, {})
    requires NonEmpty(p2) && NoncesSet(p2, pn1, w, {}, pn2)
    ensures Tracks(p2, pn2, w)
    ensures UpToDate(p2, pn2, w) <==> forall t :: !Overtaken(p, drop, w, t)
  {
    hide CutDown, Demoting, NonEmpty, NoncesSet, TracksAt, UpToDateAt, CutFor;
    forall a
      ensures TracksAt(p2, pn2, w, a)
    {
      AccountAfterReset(p, w, maxGas, drop, p1, pn1, p2, pn2, a);
    }
    if UpToDate(p2, pn2, w) {
      forall t
        ensures !Overtaken(p, drop, w, t)
      {
        assert UpToDateAt(p2, pn2, w, t.from);
        AccountAfterReset(p, w, maxGas, drop, p1, pn1, p2, pn2, t.from);
        if Overtaken(p, drop, w, t) {
          CutIsLowest(p, drop, t.from, t);
        }
      }
    }
    if forall t :: !Overtaken(p, drop, w, t) {
      forall a
        ensures UpToDateAt(p2, pn2, w, a)
      {
        AccountAfterReset(p, w, maxGas, drop, p1, pn1, p2, pn2, a);
        CutIsListed(p, drop, a);
        if CutFor(p, drop, a).Some? {
          var t :| t in drop && t.from == a && Listed(p, t) && t.nonce == CutFor(p, drop, a).value;
          assert !Overtaken(p, drop, w, t);
        }
      }
    }
  }

  /** An account left behind stays behind: nothing queued for it counts as ready. */
  lemma LeftBehindIsNeverReady(p: Lists, pn: Nonces, w: World, a: Address, queued: Items)
    requires TracksAt(p, pn, w, a) && !UpToDateAt(p, pn, w, a) && AtLeast(queued, NonceOf(w, a))
    ensures Beyond(queued, PendingNonce(pn, w, a))
  {
  }

  lemma ListReady(p: Lists, q: Lists, all: set<Tx>, w: World, a: Address)
    requires Core(p, q, all, {}) && NonEmpty(p) && GapFree(p, w) && a in p
    ensures Keyed(p[a]) && p[a] != map[] && GapFreeFrom(p[a], NonceOf(w, a))
  {
    assert FiledAt(p, a) && GapFreeAt(p, w, a);
  }

  lemma UpToDateSame(p: Lists, pn: Nonces, p': Lists, pn': Nonces, w: World)
    requires SameTracking(p, pn, p', pn', w)
    ensures UpToDate(p', pn', w) <==> UpToDate(p, pn, w)
  {
    hide UpToDateAt;
    if UpToDate(p', pn', w) {
      forall a
        ensures UpToDateAt(p, pn, w, a)
      {
        assert UpToDateAt(p', pn', w, a);
      }
    }
  }

  lemma NoElems(all: set<Tx>)
    ensures all == all - Elems([])
  {
  }

  lemma ElemsOnlyRemote(all: set<Tx>, all': set<Tx>, drop: seq<Tx>, w: World, maxGas: nat, locals: set<Address>)
    requires all' == all - Elems(drop) && forall t :: t in drop ==> t.from !in locals
    ensures LocalsSafe(all, all', w, maxGas, locals)
  {
  }

  lemma LocalsSafeNow(all: set<Tx>, w: World, maxGas: nat, locals: set<Address>)
    ensures LocalsSafe(all, all, w, maxGas, locals)
  {
  }

  lemma DemotionSparesLocals(p: Lists, all: set<Tx>, all': set<Tx>, w: World, maxGas: nat, locals: set<Address>)
    requires forall t :: t in all' <==> t in all && !DroppedByDemotion(p, w, maxGas, {}, t)
    ensures LocalsSafe(all, all', w, maxGas, locals)
  {
  }

  lemma NoncesStart(p: Lists, pn: Nonces, w: World)
    ensures NoncesSet(p, pn, w, p.Keys, pn)
  {
  }

  lemma NoncesStep(p: Lists, pn: Nonces, w: World, todo: set<Address>, a: Address, pn1: Nonces)
    requires NoncesSet(p, pn, w, todo, pn1) && a in todo && a in p
    ensures NoncesSet(p, pn, w, todo - {a}, pn1[a := NonceOf(w, a) + |p[a]|])
  {
    var pn2 := pn1[a := NonceOf(w, a) + |p[a]|];
    forall b
      ensures PendingNonce(pn2, w, b) ==
                if b in p && b !in todo - {a} then NonceOf(w, b) + |p[b]| else PendingNonce(pn, w, b)
    {
      assert b != a ==> PendingNonce(pn2, w, b) == PendingNonce(pn1, w, b);
    }
  }

  /** What the price drop overtakes, in terms of the pool before it. */
  lemma OvertakenMeans(p: Lists, q: Lists, all: set<Tx>, w: World, price: nat, locals: set<Address>, drop: seq<Tx>)
    requires Core(p, q, all, {}) && forall t :: t in drop <==> t in all && t.price < price && t.from !in locals
    ensures (forall t :: !Overtaken(p, drop, w, t)) <==>
              forall t :: Listed(p, t) && t.from !in locals && t.price < price ==> t.nonce >= NonceOf(w, t.from)
  {
    hide Listed, NonceOf;
    forall t
      ensures Overtaken(p, drop, w, t) <==>
                Listed(p, t) && t.from !in locals && t.price < price && t.nonce < NonceOf(w, t.from)
    {
      AllIsListed(p, q, all, t);
    }
    if forall t :: !Overtaken(p, drop, w, t) {
      forall t | Listed(p, t) && t.from !in locals && t.price < price
        ensures t.nonce >= NonceOf(w, t.from)
      {
        assert !Overtaken(p, drop, w, t);
      }
    }
  }

  lemma NothingOvertaken(p: Lists, w: World)
    ensures forall t :: !Overtaken(p, [], w, t)
  {
  }

  lemma DroppedForPrice(all: set<Tx>, drop: seq<Tx>, all1: set<Tx>, all2: set<Tx>, w: World, maxGas: nat,
                        locals: set<Address>, price: nat)
    requires forall t :: t in drop <==> t in all && t.price < price && t.from !in locals
    requires all1 == all - Elems(drop) && LocalsSafe(all1, all2, w, maxGas, locals)
    ensures forall t :: t in all2 && t.from !in locals ==> t.price >= price
  {
  }

  /** The stages of a reset: what the price drops, the lists it leaves, the lists after demotion, the promotion,
      and what is known between the two limits. */
  datatype Stages = Stages(drop: seq<Tx>, cut: Lists, demoted: Lists, promotion: Promotion, kept: set<Tx>, level: nat)

  /** The stages from the pool before the reset: the price drop cuts the lists, demotion leaves the executable
      runs and forgets the hopeless, promotion starts from there. */
  ghost predicate Staged(s: Stages, p: Lists, all: set<Tx>, w: World, maxGas: nat, locals: set<Address>,
                         price: Option<nat>, limit: nat) {
    && (forall t :: t in s.drop <==> price.Some? && t in all && t.price < price.value && t.from !in locals)
    && CutLists(p, s.drop, s.cut) && Demoting(s.cut, w, maxGas, s.demoted, {})
    && (forall t :: t in s.promotion.all <==> t in all && t !in s.drop && !DroppedByDemotion(s.cut, w, maxGas, {}, t))
    && Extended(s.demoted, s.promotion.p')
    && Promoting(s.promotion, w, maxGas, locals, limit, s.promotion.q.Keys)
  }

  lemma StagedBy(s: Stages, p: Lists, all: set<Tx>, all1: set<Tx>, w: World, maxGas: nat, locals: set<Address>,
                 price: Option<nat>, limit: nat)
    requires forall t :: t in s.drop <==> price.Some? && t in all && t.price < price.value && t.from !in locals
    requires CutLists(p, s.drop, s.cut) && Demoting(s.cut, w, maxGas, s.demoted, {}) && all1 == all - Elems(s.drop)
    requires forall t :: t in s.promotion.all <==> t in all1 && !DroppedByDemotion(s.cut, w, maxGas, {}, t)
    requires Extended(s.demoted, s.promotion.p')
    requires Promoting(s.promotion, w, maxGas, locals, limit, s.promotion.q.Keys)
    ensures Staged(s, p, all, w, maxGas, locals, price, limit)
  {
  }
}
