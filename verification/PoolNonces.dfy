/** What the pool's operations do to executable lists and tracked nonces. */
module PoolNonces {
  import opened Types
  import opened Gas
  import opened SortedMap
  import opened TxList
  import opened PoolLists
  import opened PoolCore
  import opened PoolLevels
  import opened Sums

  type Nonces = map<Address, nat>

  /** The lowest nonce among those of `txs` that are executable transactions of the account. */
  ghost function CutFor(p: Lists, txs: seq<Tx>, a: Address): Option<nat> {
    if txs == [] then None
    else
      var t, c := txs[|txs| - 1], CutFor(p, txs[..|txs| - 1], a);
      if t.from != a || !Listed(p, t) then c
      else if c.Some? && c.value <= t.nonce then c else Some(t.nonce)
  }

  ghost predicate CutDownAt(p: Lists, pn: Nonces, w: World, txs: seq<Tx>, p': Lists, pn': Nonces, a: Address) {
    match CutFor(p, txs, a)
    case None => Get(p', a) == Get(p, a) && PendingNonce(pn', w, a) == PendingNonce(pn, w, a)
    case Some(n) =>
      && Get(p', a) == BelowNonce(Get(p, a), n)
      && PendingNonce(pn', w, a) == if PendingNonce(pn, w, a) > n then n else PendingNonce(pn, w, a)
  }

  /** Each account's executable list has been cut at the lowest of its removed transactions, and the tracked
      nonce lowered to it. */
  ghost predicate CutDown(p: Lists, pn: Nonces, w: World, txs: seq<Tx>, p': Lists, pn': Nonces) {
    forall a {:trigger CutDownAt(p, pn, w, txs, p', pn', a)} :: CutDownAt(p, pn, w, txs, p', pn', a)
  }

  /** The lists alone. */
  ghost predicate CutLists(p: Lists, txs: seq<Tx>, p': Lists) {
    forall a {:trigger CutFor(p, txs, a)} ::
      Get(p', a) == if CutFor(p, txs, a).None? then Get(p, a) else BelowNonce(Get(p, a), CutFor(p, txs, a).value)
  }

  lemma CutDownLists(p: Lists, pn: Nonces, w: World, txs: seq<Tx>, p': Lists, pn': Nonces)
    requires CutDown(p, pn, w, txs, p', pn')
    ensures CutLists(p, txs, p')
  {
    forall a
      ensures Get(p', a) == if CutFor(p, txs, a).None? then Get(p, a)
                            else BelowNonce(Get(p, a), CutFor(p, txs, a).value)
    {
      assert CutDownAt(p, pn, w, txs, p', pn', a);
    }
  }

  lemma CutDownStart(p: Lists, pn: Nonces, w: World)
    ensures CutDown(p, pn, w, [], p, pn)
  {
  }

  /** One more removal. */
  lemma CutDownStep(p: Lists, pn: Nonces, w: World, txs: seq<Tx>, p1: Lists, pn1: Nonces, t: Tx, p2: Lists, pn2: Nonces)
    requires CutDown(p, pn, w, txs, p1, pn1)
    requires Listed(p1, t) ==>
               p2 == Store(p1, t.from, BelowNonce(Get(p1, t.from), t.nonce)) && pn2 == LowerTo(pn1, w, t)
    requires !Listed(p1, t) ==> p2 == p1 && pn2 == pn1
    ensures CutDown(p, pn, w, txs + [t], p2, pn2)
  {
    hide CutDownAt, BelowNonce, Listed, Store, LowerTo;
    forall a
      ensures CutDownAt(p, pn, w, txs + [t], p2, pn2, a)
    {
      assert CutDownAt(p, pn, w, txs, p1, pn1, a);
      CutDownStepAt(p, pn, w, txs, p1, pn1, t, p2, pn2, a);
    }
  }

  lemma CutDownStepAt(p: Lists, pn: Nonces, w: World, txs: seq<Tx>, p1: Lists, pn1: Nonces, t: Tx, p2: Lists,
                      pn2: Nonces, a: Address)
    requires CutDownAt(p, pn, w, txs, p1, pn1, a)
    requires Listed(p1, t) ==>
               p2 == Store(p1, t.from, BelowNonce(Get(p1, t.from), t.nonce)) && pn2 == LowerTo(pn1, w, t)
    requires !Listed(p1, t) ==> p2 == p1 && pn2 == pn1
    ensures CutDownAt(p, pn, w, txs + [t], p2, pn2, a)
  {
    hide BelowNonce, Store, CutFor, Get;
    CutForSnoc(p, txs, t, a);
    StoreContents(p1, t.from, BelowNonce(Get(p1, t.from), t.nonce));
    if a == t.from {
      CutStepAt(Get(p, a), CutFor(p, txs, a), Get(p1, a), t);
    } else if Listed(p1, t) {
      assert Get(p2, a) == Get(p1, a);
    }
  }

  lemma CutForSnoc(p: Lists, txs: seq<Tx>, t: Tx, a: Address)
    ensures var c := CutFor(p, txs, a);
            CutFor(p, txs + [t], a) == if t.from != a || !Listed(p, t) then c
                                       else if c.Some? && c.value <= t.nonce then c else Some(t.nonce)
  {
    assert (txs + [t])[..|txs + [t]| - 1] == txs;
  }

  lemma CutStepAt(items: Items, c: Option<nat>, items1: Items, t: Tx)
    requires items1 == if c.None? then items else BelowNonce(items, c.value)
    ensures t.nonce in items1 && items1[t.nonce] == t <==>
              t.nonce in items && items[t.nonce] == t && (c.Some? ==> t.nonce < c.value)
    ensures c.None? || t.nonce < c.value ==> BelowNonce(items1, t.nonce) == BelowNonce(items, t.nonce)
  {
  }

  lemma {:induction false} CutIsListed(p: Lists, txs: seq<Tx>, a: Address)
    ensures var c := CutFor(p, txs, a);
            c.Some? ==> exists t :: t in txs && t.from == a && Listed(p, t) && t.nonce == c.value
  {
    if txs != [] {
      CutIsListed(p, txs[..|txs| - 1], a);
      var t := txs[|txs| - 1];
      assert t in txs;
    }
  }

  lemma {:induction false} CutIsLowest(p: Lists, txs: seq<Tx>, a: Address, t: Tx)
    requires t in txs && t.from == a && Listed(p, t)
    ensures var c := CutFor(p, txs, a);
            c.Some? && c.value <= t.nonce
  {
    if t != txs[|txs| - 1] {
      assert t in txs[..|txs| - 1];
    }
    if t in txs[..|txs| - 1] {
      CutIsLowest(p, txs[..|txs| - 1], a, t);
    }
  }

  /** A cut keeps the lists gap-free, whatever state they were gap-free from. */
  lemma CutDownGapFree(p: Lists, pn: Nonces, w: World, txs: seq<Tx>, p': Lists, pn': Nonces, anchor: World)
    requires CutDown(p, pn, w, txs, p', pn') && GapFree(p, anchor)
    ensures GapFree(p', anchor)
  {
    forall a
      ensures GapFreeAt(p', anchor, a)
    {
      assert CutDownAt(p, pn, w, txs, p', pn', a) && GapFreeAt(p, anchor, a);
      CutIsListed(p, txs, a);
      if CutFor(p, txs, a).Some? {
        CutGapFree(Get(p, a), NonceOf(anchor, a), CutFor(p, txs, a).value);
      }
    }
  }

  /** A cut keeps the nonces tracked. */
  lemma CutDownKeeps(p: Lists, pn: Nonces, w: World, txs: seq<Tx>, p': Lists, pn': Nonces)
    requires CutDown(p, pn, w, txs, p', pn') && GapFree(p, w) && Tracks(p, pn, w)
    ensures GapFree(p', w) && Tracks(p', pn', w) && SameTracking(p, pn, p', pn', w)
  {
    CutDownGapFree(p, pn, w, txs, p', pn', w);
    forall a
      ensures TracksAt(p', pn', w, a)
      ensures UpToDateAt(p', pn', w, a) <==> UpToDateAt(p, pn, w, a)
    {
      assert CutDownAt(p, pn, w, txs, p', pn', a) && GapFreeAt(p, w, a) && TracksAt(p, pn, w, a);
      CutIsListed(p, txs, a);
      if CutFor(p, txs, a).Some? {
        CutGapFree(Get(p, a), NonceOf(w, a), CutFor(p, txs, a).value);
      }
    }
  }

  /** A gap-free list cut at one of its nonces reaches up to that nonce. */
  lemma CutGapFree(items: Items, start: nat, n: nat)
    requires GapFreeFrom(items, start) && n in items
    ensures GapFreeFrom(BelowNonce(items, n), start) && start + |BelowNonce(items, n)| == n
  {
    var rest := BelowNonce(items, n);
    CutStaysGapFree(items, start, n, rest);
    RangeSize(start, n - start);
    assert rest.Keys == Range(start, n - start);
    assert |rest| == |rest.Keys|;
  }

  /******* Demotion *******/

  /** `rest` is what can be executed of `items` on the account's state: the longest run of payable
      transactions from the state nonce. */
  ghost predicate ExecutableRun(items: Items, nonce: nat, balance: nat, maxGas: nat, rest: Items) {
    && PartOf(rest, items) && GapFreeFrom(rest, nonce)
    && (forall n :: n in rest ==> !Unpayable(rest[n], balance, maxGas))
    && (nonce + |rest| in items ==> Unpayable(items[nonce + |rest|], balance, maxGas))
  }

  /** The part of a gap-free list from a nonce in it on. */
  lemma FromGapFree(items: Items, start: nat, nonce: nat)
    requires GapFreeFrom(items, start) && nonce in items
    ensures GapFreeFrom(FromNonce(items, nonce), nonce)
  {
    var kept := FromNonce(items, nonce);
    var len := start + |items| - nonce;
    RangeSize(nonce, len);
    assert kept.Keys == Range(nonce, len);
    assert |kept| == |kept.Keys|;
  }

  /** What demotion does to a gap-free list: drop what is too old, cut at the lowest unpayable one, and give
      the rest up if it does not start at the state nonce. */
  lemma DemotionLeavesRun(items: Items, start: nat, nonce: nat, balance: nat, maxGas: nat, rest: Items)
    requires GapFreeFrom(items, start)
    requires CutAtUnpayable(FromNonce(items, nonce), balance, maxGas, rest)
    requires forall n :: n in rest ==> !Unpayable(rest[n], balance, maxGas)
    ensures ExecutableRun(items, nonce, balance, maxGas, if nonce in rest then rest else map[])
  {
    hide Unpayable, GapFreeFrom, FromNonce, BelowNonce, PartOf;
    var kept := FromNonce(items, nonce);
    if nonce !in rest {
      FromIsPart(items, nonce, nonce);
      if nonce in items {
        var cut :| cut in kept && Unpayable(kept[cut], balance, maxGas) && rest == BelowNonce(kept, cut);
        CutAtStart(items, nonce, cut);
      }
      NothingToRun(items, nonce, balance, maxGas);
    } else if rest == kept {
      FromIsPart(items, nonce, nonce + |rest|);
      FromGapFree(items, start, nonce);
      GapFreeEnds(kept, nonce);
    } else {
      var cut :| cut in kept && Unpayable(kept[cut], balance, maxGas) && rest == BelowNonce(kept, cut);
      FromIsPart(items, nonce, cut);
      BelowIsPart(items, kept, cut);
      FromGapFree(items, start, nonce);
      CutGapFree(kept, nonce, cut);
    }
  }

  lemma NothingToRun(items: Items, nonce: nat, balance: nat, maxGas: nat)
    requires nonce in items ==> Unpayable(items[nonce], balance, maxGas)
    ensures ExecutableRun(items, nonce, balance, maxGas, map[])
  {
    hide Unpayable;
    assert GapFreeFrom(map[], nonce);
  }

  lemma CutAtStart(items: Items, nonce: nat, cut: nat)
    requires cut in FromNonce(items, nonce) && nonce !in BelowNonce(FromNonce(items, nonce), cut) && nonce in items
    ensures cut == nonce && FromNonce(items, nonce)[cut] == items[nonce]
  {
  }

  lemma FromIsPart(items: Items, nonce: nat, n: nat)
    ensures PartOf(FromNonce(items, nonce), items)
    ensures nonce in items <==> nonce in FromNonce(items, nonce)
    ensures n in FromNonce(items, nonce) <==> n in items && n >= nonce
    ensures n in FromNonce(items, nonce) ==> FromNonce(items, nonce)[n] == items[n]
  {
  }

  lemma BelowIsPart(items: Items, kept: Items, cut: nat)
    requires PartOf(kept, items)
    ensures PartOf(BelowNonce(kept, cut), items)
    ensures forall n :: n in BelowNonce(kept, cut) ==> n in kept
  {
  }

  lemma GapFreeEnds(items: Items, start: nat)
    requires GapFreeFrom(items, start)
    ensures start + |items| !in items
  {
  }

  lemma EmptyGapFree(start: nat)
    ensures GapFreeFrom(map[], start)
  {
  }

  /** Too old or not payable on the current state. */
  predicate Hopeless(t: Tx, w: World, maxGas: nat) {
    t.nonce < NonceOf(w, t.from) || Unpayable(t, BalanceOf(w, t.from), maxGas)
  }

  /** Nothing known is hopeless. */
  ghost predicate NoneHopeless(all: set<Tx>, w: World, maxGas: nat) {
    forall t :: t in all ==> !Hopeless(t, w, maxGas)
  }

  /** Forward and Filter together take off exactly the hopeless transactions. */
  lemma HopelessGo(items: Items, a: Address, w: World, maxGas: nat, aged: seq<Tx>, dear: seq<Tx>)
    requires KeyedFor(a, items)
    requires var kept := FromNonce(items, NonceOf(w, a));
             TakenOff(items, kept, aged) && TakenOff(kept, Kept(kept, UnpayableAt(BalanceOf(w, a), maxGas)), dear)
    ensures forall t :: t in Elems(aged) + Elems(dear) <==>
                          t.from == a && t.nonce in items && items[t.nonce] == t && Hopeless(t, w, maxGas)
  {
    hide Unpayable;
    var kept := FromNonce(items, NonceOf(w, a));
    var payable := Kept(kept, UnpayableAt(BalanceOf(w, a), maxGas));
    forall t
      ensures t in Elems(aged) + Elems(dear) <==>
                t.from == a && t.nonce in items && items[t.nonce] == t && Hopeless(t, w, maxGas)
    {
      LostAt(items, kept, a, t);
      LostAt(kept, payable, a, t);
      assert t in aged <==> t in Lost(items, kept);
      assert t in dear <==> t in Lost(kept, payable);
    }
  }

  ghost predicate DemotingAt(p: Lists, w: World, maxGas: nat, p': Lists, todo: set<Address>, a: Address) {
    if a in todo then Get(p', a) == Get(p, a)
    else ExecutableRun(Get(p, a), NonceOf(w, a), BalanceOf(w, a), maxGas, Get(p', a))
  }

  /** Outside `todo` every list has been brought in line with the state. */
  ghost predicate Demoting(p: Lists, w: World, maxGas: nat, p': Lists, todo: set<Address>) {
    forall a {:trigger DemotingAt(p, w, maxGas, p', todo, a)} :: DemotingAt(p, w, maxGas, p', todo, a)
  }

  lemma DemotingStart(p: Lists, w: World, maxGas: nat)
    ensures Demoting(p, w, maxGas, p, p.Keys)
  {
    forall a
      ensures DemotingAt(p, w, maxGas, p, p.Keys, a)
    {
      EmptyGapFree(NonceOf(w, a));
    }
  }

  lemma DemotingStep(p: Lists, w: World, maxGas: nat, p1: Lists, todo: set<Address>, a: Address, p2: Lists)
    requires Demoting(p, w, maxGas, p1, todo) && a in todo && SameBut(p1, p2, a)
    requires ExecutableRun(Get(p1, a), NonceOf(w, a), BalanceOf(w, a), maxGas, Get(p2, a))
    ensures Demoting(p, w, maxGas, p2, todo - {a})
  {
    hide ExecutableRun;
    assert DemotingAt(p, w, maxGas, p1, todo, a);
    forall b
      ensures DemotingAt(p, w, maxGas, p2, todo - {a}, b)
    {
      assert DemotingAt(p, w, maxGas, p1, todo, b);
      assert b != a ==> Get(p2, b) == Get(p1, b);
    }
  }

  lemma DemotedGapFree(p: Lists, w: World, maxGas: nat, p': Lists)
    requires Demoting(p, w, maxGas, p', {})
    ensures GapFree(p', w)
  {
    forall a
      ensures GapFreeAt(p', w, a)
    {
      assert DemotingAt(p, w, maxGas, p', {}, a);
    }
  }

  /** What is dropped once the accounts outside `todo` are in line. */
  ghost predicate DroppedByDemotion(p: Lists, w: World, maxGas: nat, todo: set<Address>, t: Tx) {
    t.from !in todo && Listed(p, t) && Hopeless(t, w, maxGas)
  }

  lemma NoneDropped(p: Lists, w: World, maxGas: nat)
    ensures forall t :: !DroppedByDemotion(p, w, maxGas, p.Keys, t)
  {
  }

  lemma StillGapFree(p: Lists, anchor: World, w: World, maxGas: nat, p': Lists, todo: set<Address>, a: Address)
    requires Demoting(p, w, maxGas, p', todo) && GapFree(p, anchor) && a in todo
    ensures GapFreeFrom(Get(p', a), NonceOf(anchor, a)) && Get(p', a) == Get(p, a)
  {
    assert DemotingAt(p, w, maxGas, p', todo, a) && GapFreeAt(p, anchor, a);
  }

  lemma DropStep(p: Lists, w: World, maxGas: nat, p': Lists, todo: set<Address>, a: Address)
    requires a in todo && Get(p', a) == Get(p, a)
    ensures forall t :: DroppedByDemotion(p, w, maxGas, todo - {a}, t) <==>
                          DroppedByDemotion(p, w, maxGas, todo, t) ||
                          (t.from == a && Listed(p', t) && Hopeless(t, w, maxGas))
  {
  }

  /******* Promotion *******/

  /** No list has lost anything. */
  ghost predicate Extended(p: Lists, p': Lists) {
    forall a {:trigger Get(p', a)} :: PartOf(Get(p, a), Get(p', a))
  }

  ghost predicate Beyond(items: Items, nonce: nat) {
    forall n :: n in items ==> n > nonce
  }

  lemma NothingElse(p: Lists, a: Address)
    ensures SameBut(p, p, a)
  {
  }

  lemma NoChange(p: Lists, pn: Nonces, w: World)
    ensures Extended(p, p) && SameTracking(p, pn, p, pn, w)
  {
  }

  lemma ExtendedTwice(p: Lists, p1: Lists, p2: Lists)
    requires Extended(p, p1) && Extended(p1, p2)
    ensures Extended(p, p2)
  {
    forall a
      ensures PartOf(Get(p, a), Get(p2, a))
    {
      assert PartOf(Get(p, a), Get(p1, a)) && PartOf(Get(p1, a), Get(p2, a));
    }
  }

  lemma SameTrackingTwice(p: Lists, pn: Nonces, p1: Lists, pn1: Nonces, p2: Lists, pn2: Nonces, w: World)
    requires SameTracking(p, pn, p1, pn1, w) && SameTracking(p1, pn1, p2, pn2, w)
    ensures SameTracking(p, pn, p2, pn2, w)
  {
    forall a
      ensures UpToDateAt(p2, pn2, w, a) <==> UpToDateAt(p, pn, w, a)
    {
      assert UpToDateAt(p1, pn1, w, a) || !UpToDateAt(p1, pn1, w, a);
    }
  }

  /** What stays after the ready run lies beyond the nonce that is then tracked. */
  lemma RestBeyond(items: Items, start: nat, ready: seq<Tx>, rest: Items)
    requires ready == [] ==> rest == items && forall n :: n in items ==> n > start
    requires ready != [] ==>
               ready[0].nonce + |ready| !in items && rest == FromNonce(items, ready[0].nonce + |ready|)
    ensures Beyond(rest, if ready == [] then start else ready[0].nonce + |ready|) && PartOf(rest, items)
  {
  }

  /** The ready transactions continue the executable list one by one. */
  lemma ReadyRun(p: Lists, q: Lists, all: set<Tx>, pn: Nonces, w: World, a: Address, ready: seq<Tx>)
    requires Core(p, q, all, {}) && GapFree(p, w) && Tracks(p, pn, w)
    requires AtLeast(Get(q, a), NonceOf(w, a))
    requires ready != [] ==> ready[0].nonce <= PendingNonce(pn, w, a) && RunFrom(Get(q, a), ready[0].nonce, ready)
    ensures GapFreeFrom(Get(p, a), NonceOf(w, a))
    ensures ready != [] ==> UpToDateAt(p, pn, w, a)
    ensures Continues(ready, a, NonceOf(w, a) + |Get(p, a)|)
    ensures ready != [] ==> ready[0].nonce == NonceOf(w, a) + |Get(p, a)|
  {
    assert GapFreeAt(p, w, a) && TracksAt(p, pn, w, a) && ApartAt(p, q, a) && FiledAt(q, a);
    if ready != [] {
      assert ready[0].nonce + 0 in Get(q, a);
      ReadyContinues(p, pn, w, a, ready[0].nonce);
    }
  }

  /** An account's limit: a remote queue loses its highest nonces, and only down to the limit. */
  ghost predicate QueueLimited(items: Items, rest: Items, all: set<Tx>, all': set<Tx>, a: Address,
                               locals: set<Address>, limit: nat) {
    && PartOf(rest, items) && all' <= all
    && (a in locals ==> rest == items && all' == all)
    && (a !in locals ==> |rest| <= limit)
    && forall t :: t in all && t !in all' ==>
         && t.from == a && t.nonce in items && items[t.nonce] == t
         && |rest| == limit && forall n :: n in rest ==> n < t.nonce
  }

  lemma LimitByCap(items: Items, rest: Items, off: seq<Tx>, all: set<Tx>, a: Address, locals: set<Address>, limit: nat)
    requires KeyedFor(a, items) && TakenOff(items, rest, off) && a !in locals
    requires |rest| == if |items| <= limit then |items| else limit
    requires forall n, m :: n in rest && m in items && m !in rest ==> n < m
    requires |off| == |items| - |rest|
    ensures QueueLimited(items, rest, all, all - Elems(off), a, locals, limit)
  {
    forall t | t in all && t !in all - Elems(off)
      ensures t.from == a && t.nonce in items && items[t.nonce] == t
      ensures |rest| == limit && forall n :: n in rest ==> n < t.nonce
    {
      assert t in off;
      assert t in Lost(items, rest);
    }
  }

  lemma NoLimit(items: Items, all: set<Tx>, a: Address, locals: set<Address>, limit: nat)
    requires a in locals
    ensures QueueLimited(items, items, all, all, a, locals, limit)
  {
  }

  /** A ready run begins where the executable list ends, and then the tracked nonce was up to date. */
  lemma ReadyContinues(p: Lists, pn: Nonces, w: World, a: Address, first: nat)
    requires GapFreeAt(p, w, a) && TracksAt(p, pn, w, a)
    requires NonceOf(w, a) <= first <= PendingNonce(pn, w, a) && first !in Get(p, a)
    ensures first == NonceOf(w, a) + |Get(p, a)| && UpToDateAt(p, pn, w, a)
  {
  }

  /** Promotion keeps lists gap-free and nonces tracked. */
  lemma PromotionKeeps(p: Lists, pn: Nonces, w: World, a: Address, k: nat, p': Lists, pn': Nonces)
    requires GapFree(p, w) && Tracks(p, pn, w) && Grown(p, p', a, NonceOf(w, a), k)
    requires k > 0 ==> UpToDateAt(p, pn, w, a)
    requires pn' == Raised(pn, a, k, NonceOf(w, a) + |Get(p, a)| + k)
    ensures PendingNonce(pn', w, a) == if k == 0 then PendingNonce(pn, w, a) else NonceOf(w, a) + |Get(p, a)| + k
    ensures GapFree(p', w) && Tracks(p', pn', w) && SameTracking(p, pn, p', pn', w)
    ensures Extended(p, p') && SameBut(p, p', a)
  {
    forall b
      ensures GapFreeAt(p', w, b) && TracksAt(p', pn', w, b) && PartOf(Get(p, b), Get(p', b))
      ensures UpToDateAt(p', pn', w, b) <==> UpToDateAt(p, pn, w, b)
    {
      assert GapFreeAt(p, w, b) && TracksAt(p, pn, w, b);
      assert b != a ==> Get(p', b) == Get(p, b);
      if b == a && k == 0 {
        assert Get(p', a) == map[] <==> Get(p, a) == map[];
      }
    }
  }

  /** Nothing queued for the account is ready: it lies at or above the state nonce, and above the nonce after
      the executable list unless the tracked nonce was left behind. */
  ghost predicate SettledAt(p: Lists, q: Lists, pn: Nonces, w: World, a: Address) {
    && AtLeast(Get(q, a), NonceOf(w, a))
    && (UpToDateAt(p, pn, w, a) ==> Beyond(Get(q, a), NonceOf(w, a) + |Get(p, a)|))
  }

  /** Why promotion may drop a queued transaction: it is hopeless, or a remote queue is full of lower nonces. */
  ghost predicate Droppable(q': Lists, w: World, maxGas: nat, locals: set<Address>, limit: nat, t: Tx) {
    || Hopeless(t, w, maxGas)
    || (t.from !in locals && |Get(q', t.from)| == limit && forall n :: n in Get(q', t.from) ==> n < t.nonce)
  }

  /** A promotion step as values: queue and known transactions before; lists, known transactions and nonces after. */
  datatype Promotion = Promotion(q: Lists, all: set<Tx>, p': Lists, q': Lists, all': set<Tx>, pn': Nonces)

  /** One account is promoted: nothing ready or hopeless stays queued, its limit is kept, and what was dropped
      was queued and droppable. */
  ghost predicate PromotedAt(s: Promotion, w: World, maxGas: nat, locals: set<Address>, limit: nat, a: Address) {
    && SettledAt(s.p', s.q', s.pn', w, a) && PartOf(Get(s.q', a), Get(s.q, a))
    && (a !in locals ==> |Get(s.q', a)| <= limit)
    && (forall t :: t in s.all && t.from == a && t !in s.all' ==>
        Listed(s.q, t) && Droppable(s.q', w, maxGas, locals, limit, t))
    && (forall t :: t in s.all' && t.from == a && Listed(s.q, t) ==> !Hopeless(t, w, maxGas))
  }

  ghost predicate UntouchedAt(s: Promotion, a: Address) {
    Get(s.q', a) == Get(s.q, a) && forall t :: t in s.all && t.from == a ==> t in s.all'
  }

  ghost predicate PromotingAt(s: Promotion, w: World, maxGas: nat, locals: set<Address>, limit: nat,
                              done: set<Address>, a: Address) {
    if a in done then PromotedAt(s, w, maxGas, locals, limit, a) else UntouchedAt(s, a)
  }

  /** The accounts in `done` are promoted, the others untouched. */
  ghost predicate Promoting(s: Promotion, w: World, maxGas: nat, locals: set<Address>, limit: nat, done: set<Address>) {
    && s.all' <= s.all
    && forall a {:trigger PromotingAt(s, w, maxGas, locals, limit, done, a)} ::
         PromotingAt(s, w, maxGas, locals, limit, done, a)
  }

  lemma PromotingStart(q: Lists, all: set<Tx>, p: Lists, pn: Nonces, w: World, maxGas: nat, locals: set<Address>,
                       limit: nat)
    ensures Promoting(Promotion(q, all, p, q, all, pn), w, maxGas, locals, limit, {})
  {
  }

  /** What an account's promotion leaves alone. */
  ghost predicate OnlyAccount(p1: Lists, pn1: Nonces, s: Promotion, w: World, a: Address) {
    && SameBut(p1, s.p', a) && SameBut(s.q, s.q', a) && SameTracking(p1, pn1, s.p', s.pn', w)
    && s.all' <= s.all && forall t :: t in s.all && t !in s.all' ==> t.from == a
  }

  lemma PromotingStep(s: Promotion, step: Promotion, w: World, maxGas: nat, locals: set<Address>, limit: nat,
                      done: set<Address>, a: Address)
    requires Promoting(s, w, maxGas, locals, limit, done) && a !in done
    requires step.q == s.q' && step.all == s.all' && OnlyAccount(s.p', s.pn', step, w, a)
    requires PromotedAt(step, w, maxGas, locals, limit, a)
    ensures Promoting(Promotion(s.q, s.all, step.p', step.q', step.all', step.pn'), w, maxGas, locals, limit,
                      done + {a})
  {
    var s' := Promotion(s.q, s.all, step.p', step.q', step.all', step.pn');
    forall b
      ensures PromotingAt(s', w, maxGas, locals, limit, done + {a}, b)
    {
      assert PromotingAt(s, w, maxGas, locals, limit, done, b);
      if b == a {
        PromotedFrom(s, step, w, maxGas, locals, limit, a);
      } else {
        OtherKept(s, step, w, maxGas, locals, limit, done, a, b);
      }
    }
  }

  lemma PromotedFrom(s: Promotion, step: Promotion, w: World, maxGas: nat, locals: set<Address>, limit: nat, a: Address)
    requires UntouchedAt(s, a) && step.q == s.q' && step.all == s.all' && s.all' <= s.all
    requires PromotedAt(step, w, maxGas, locals, limit, a)
    ensures PromotedAt(Promotion(s.q, s.all, step.p', step.q', step.all', step.pn'), w, maxGas, locals, limit, a)
  {
    hide Hopeless, SettledAt, Droppable;
  }

  lemma OtherKept(s: Promotion, step: Promotion, w: World, maxGas: nat, locals: set<Address>, limit: nat,
                  done: set<Address>, a: Address, b: Address)
    requires PromotingAt(s, w, maxGas, locals, limit, done, b) && b != a && s.all' <= s.all
    requires step.q == s.q' && step.all == s.all' && OnlyAccount(s.p', s.pn', step, w, a)
    ensures PromotingAt(Promotion(s.q, s.all, step.p', step.q', step.all', step.pn'), w, maxGas, locals, limit,
                        done + {a}, b)
  {
    hide Hopeless;
    assert Get(step.p', b) == Get(s.p', b) && Get(step.q', b) == Get(s.q', b);
    assert UpToDateAt(step.p', step.pn', w, b) <==> UpToDateAt(s.p', s.pn', w, b);
  }

  /** One account's promotion from its parts: hopeless ones cleaned out, the ready run moved, the limit applied. */
  lemma PromotedHere(s: Promotion, all1: set<Tx>, payable: Items, rest: Items, w: World, maxGas: nat,
                     locals: set<Address>, limit: nat, a: Address)
    requires PartOf(payable, Get(s.q, a)) && AtLeast(payable, NonceOf(w, a)) && PartOf(rest, payable)
    requires forall t :: t in all1 <==> t in s.all && !(t.from == a && Listed(s.q, t) && Hopeless(t, w, maxGas))
    requires Beyond(rest, PendingNonce(s.pn', w, a))
    requires QueueLimited(rest, Get(s.q', a), all1, s.all', a, locals, limit)
    ensures PromotedAt(s, w, maxGas, locals, limit, a) && s.all' <= s.all
    ensures forall t :: t in s.all && t !in s.all' ==> t.from == a
  {
    hide Hopeless, Listed;
    forall t | t in s.all && t !in s.all'
      ensures t.from == a && Listed(s.q, t) && Droppable(s.q', w, maxGas, locals, limit, t)
    {
      if t in all1 {
        assert Listed(s.q, t) by { ListedBy(s.q, a, rest, t); }
      }
    }
  }

  lemma ListedBy(q: Lists, a: Address, items: Items, t: Tx)
    requires t.from == a && PartOf(items, Get(q, a)) && t.nonce in items && items[t.nonce] == t
    ensures Listed(q, t)
  {
  }

  /** An account without a queue is promoted as it is. */
  lemma NothingQueued(s: Promotion, w: World, maxGas: nat, locals: set<Address>, limit: nat, a: Address)
    requires s.q' == s.q && s.all' == s.all && a !in s.q
    ensures PromotedAt(s, w, maxGas, locals, limit, a)
  {
    hide Hopeless, UpToDateAt;
  }

  /******* Truncation *******/

  /** Lists have lost transactions and those are the ones forgotten. */
  ghost predicate Shortened(p: Lists, all: set<Tx>, p': Lists, all': set<Tx>) {
    && Extended(p', p) && all' <= all
    && forall t :: t in all && t !in all' ==> Listed(p, t) && !Listed(p', t)
  }

  lemma ShortenedNot(p: Lists, all: set<Tx>)
    ensures Shortened(p, all, p, all)
  {
  }

  lemma ShortenedTwice(p: Lists, all: set<Tx>, p1: Lists, all1: set<Tx>, p2: Lists, all2: set<Tx>)
    requires Shortened(p, all, p1, all1) && Shortened(p1, all1, p2, all2)
    ensures Shortened(p, all, p2, all2)
  {
    ExtendedTwice(p2, p1, p);
    forall t | t in all && t !in all2
      ensures Listed(p, t) && !Listed(p2, t)
    {
      assert PartOf(Get(p1, t.from), Get(p, t.from)) && PartOf(Get(p2, t.from), Get(p1, t.from));
    }
  }

  /** Capping a gap-free list at one less takes off its last transaction. */
  lemma LastOff(p: Lists, pn: Nonces, w: World, a: Address, items: Items, rest: Items, off: seq<Tx>)
    requires items == Get(p, a) && KeyedFor(a, items) && GapFree(p, w) && |items| >= 2
    requires TakenOff(items, rest, off) && |off| == 1 && |rest| == |items| - 1
    requires forall n, m :: n in rest && m in items && m !in rest ==> n < m
    ensures rest != map[] && p[a := rest] == Store(p, a, rest)
    ensures CutDown(p, pn, w, [off[0]], p[a := rest], LowerTo(pn, w, off[0]))
  {
    var t := off[0];
    assert t in off && t in Lost(items, rest);
    assert Listed(p, t);
    forall m | m in items
      ensures m in rest <==> m < t.nonce
    {
      if m !in rest {
        assert items[m] in Lost(items, rest);
        assert items[m] in off;
      }
    }
    assert rest == BelowNonce(items, t.nonce);
    CutDownStart(p, pn, w);
    CutDownStep(p, pn, w, [], p, pn, t, p[a := rest], LowerTo(pn, w, t));
    assert [] + [t] == [t];
  }

  lemma ShortenedBy(p: Lists, all: set<Tx>, a: Address, rest: Items, off: seq<Tx>)
    requires a in p && KeyedFor(a, Get(p, a)) && TakenOff(Get(p, a), rest, off)
    ensures Shortened(p, all, p[a := rest], all - Elems(off))
    ensures SizesOf(p[a := rest]) == SizesOf(p)[a := |rest|]
  {
    var p' := p[a := rest];
    forall b
      ensures PartOf(Get(p', b), Get(p, b))
    {
      assert b != a ==> Get(p', b) == Get(p, b);
    }
    forall t | t in Elems(off)
      ensures Listed(p, t) && !Listed(p', t)
    {
      assert t in Lost(Get(p, a), rest);
    }
  }

  /******* The queue limit *******/

  /** A list without the given transactions. */
  ghost function Rest(items: Items, txs: seq<Tx>): Items {
    map n | n in items && items[n] !in txs :: items[n]
  }

  lemma RestStart(q: Lists, a: Address, all: set<Tx>, txs: seq<Tx>)
    requires a in q && NonEmpty(q)
    ensures q == Store(q, a, Rest(q[a], txs[..0])) && all == all - Elems(txs[..0])
  {
    assert Rest(q[a], txs[..0]) == q[a];
  }

  lemma RestStep(q: Lists, a: Address, txs: seq<Tx>, i: nat)
    requires a in q && i < |txs| && NoRepeats(txs) && txs[i].from == a && Listed(q, txs[i])
    requires KeyedFor(a, q[a])
    ensures var q1 := Store(q, a, Rest(q[a], txs[..i]));
            && Listed(q1, txs[i])
            && Store(q1, a, Get(q1, a) - {txs[i].nonce}) == Store(q, a, Rest(q[a], txs[..i + 1]))
  {
    var t, before := txs[i], Rest(q[a], txs[..i]);
    assert txs[..i + 1] == txs[..i] + [t];
    assert t !in txs[..i];
    assert before - {t.nonce} == Rest(q[a], txs[..i + 1]);
    StoreContents(q, a, before);
    StoreStore(q, a, before, before - {t.nonce});
  }

  lemma StoreStore(q: Lists, a: Address, between: Items, items: Items)
    ensures Store(Store(q, a, between), a, items) == Store(q, a, items)
  {
  }

  lemma RestIs(items: Items, rest: Items, off: seq<Tx>)
    requires Keyed(items) && TakenOff(items, rest, off)
    ensures Rest(items, off) == rest
  {
    forall n | n in items
      ensures n in rest <==> items[n] !in off
    {
      assert items[n] in off <==> items[n] in Lost(items, rest);
    }
  }

  lemma OffListed(q: Lists, a: Address, rest: Items, off: seq<Tx>, i: nat)
    requires a in q && KeyedFor(a, q[a]) && TakenOff(q[a], rest, off) && i < |off|
    ensures NoRepeats(off) && off[i].from == a && Listed(q, off[i])
  {
    assert off[i] in off;
    assert off[i] in Lost(q[a], rest);
  }

  lemma CutIsAtTop(items: Items, rest: Items, off: seq<Tx>)
    requires TakenOff(items, rest, off) && forall n, m :: n in rest && m in items && m !in rest ==> n < m
    ensures CutAtTop(items, rest)
  {
  }

  lemma StoreKeys(q: Lists, a: Address, rest: Items)
    requires a in q
    ensures forall b :: b in Store(q, a, rest) <==> b in q && (b == a ==> |rest| > 0)
  {
  }

  lemma SumStore(q: Lists, a: Address, rest: Items)
    requires a in q
    ensures Sum(SizesOf(Store(q, a, rest))) == Sum(SizesOf(q)) - |q[a]| + |rest|
  {
    hide Sum;
    var m := SizesOf(q);
    if rest == map[] {
      SumRemove(m, a);
      assert SizesOf(q - {a}) == m - {a};
    } else {
      SumUpdate(m, a, |rest|);
      assert SizesOf(q[a := rest]) == m[a := |rest|];
    }
  }

  /** The account's list has lost its highest nonces only. */
  ghost predicate CutAtTop(items: Items, rest: Items) {
    PartOf(rest, items) && forall n, m :: n in rest && m in items && m !in rest ==> n < m
  }

  ghost predicate CutAtTopAt(q: Lists, q': Lists, todo: set<Address>, a: Address) {
    CutAtTop(Get(q, a), Get(q', a)) && (a in todo ==> Get(q', a) == Get(q, a))
  }

  /** Transactions have been forgotten from the top of remote queues only, and none of an account to come. */
  ghost predicate QueueCut(q: Lists, all: set<Tx>, locals: set<Address>, todo: set<Address>, q': Lists, all': set<Tx>) {
    && (forall a {:trigger CutAtTopAt(q, q', todo, a)} :: CutAtTopAt(q, q', todo, a)) && all' <= all
    && forall t :: t in all && t !in all' ==> Listed(q, t) && t.from !in locals
  }

  /** Exactly the surplus over the limit has gone, unless only local queues remain. */
  ghost predicate QueueFits(q: Lists, all: set<Tx>, q': Lists, all': set<Tx>, locals: set<Address>, limit: nat) {
    if Sum(SizesOf(q)) <= limit then q' == q && all' == all
    else Sum(SizesOf(q')) == limit || (Sum(SizesOf(q')) > limit && forall a :: a in q' ==> a in locals)
  }

  lemma QueueUncut(q: Lists, all: set<Tx>, locals: set<Address>, todo: set<Address>)
    ensures QueueCut(q, all, locals, todo, q, all)
  {
  }

  lemma QueueCutFewer(q: Lists, all: set<Tx>, locals: set<Address>, todo: set<Address>, q': Lists, all': set<Tx>)
    requires QueueCut(q, all, locals, todo, q', all')
    ensures QueueCut(q, all, locals, {}, q', all')
  {
    forall a
      ensures CutAtTopAt(q, q', {}, a)
    {
      assert CutAtTopAt(q, q', todo, a);
    }
  }

  lemma QueueCutStep(q: Lists, all: set<Tx>, locals: set<Address>, todo: set<Address>, q1: Lists, all1: set<Tx>,
                     a: Address, rest: Items, off: seq<Tx>)
    requires QueueCut(q, all, locals, todo, q1, all1) && a in todo && a !in locals && KeyedFor(a, Get(q1, a))
    requires TakenOff(Get(q1, a), rest, off) && CutAtTop(Get(q1, a), rest)
    ensures QueueCut(q, all, locals, todo - {a}, Store(q1, a, rest), all1 - Elems(off))
  {
    hide CutAtTop;
    var q2, all2 := Store(q1, a, rest), all1 - Elems(off);
    StoreContents(q1, a, rest);
    assert CutAtTopAt(q, q1, todo, a);
    forall b
      ensures CutAtTopAt(q, q2, todo - {a}, b)
    {
      assert CutAtTopAt(q, q1, todo, b);
    }
    forall t | t in all && t !in all2
      ensures Listed(q, t) && t.from !in locals
    {
      if t in all1 {
        assert t in Lost(Get(q1, a), rest);
      }
    }
  }

  /******* Local transactions *******/

  /** A transaction of a local account has been forgotten only if it is hopeless. */
  ghost predicate LocalsSafe(all: set<Tx>, all': set<Tx>, w: World, maxGas: nat, locals: set<Address>) {
    all' <= all && forall t :: t in all && t !in all' ==> t.from !in locals || Hopeless(t, w, maxGas)
  }

  lemma LocalsSafeTwice(all: set<Tx>, all1: set<Tx>, all2: set<Tx>, w: World, maxGas: nat, locals: set<Address>)
    requires LocalsSafe(all, all1, w, maxGas, locals) && LocalsSafe(all1, all2, w, maxGas, locals)
    ensures LocalsSafe(all, all2, w, maxGas, locals)
  {
  }

  lemma PromotionSparesLocals(s: Promotion, w: World, maxGas: nat, locals: set<Address>, limit: nat, done: set<Address>)
    requires Promoting(s, w, maxGas, locals, limit, done)
    ensures LocalsSafe(s.all, s.all', w, maxGas, locals)
  {
    hide Hopeless, SettledAt;
    forall t | t in s.all && t !in s.all'
      ensures t.from !in locals || Hopeless(t, w, maxGas)
    {
      assert PromotingAt(s, w, maxGas, locals, limit, done, t.from);
    }
  }

  lemma QueueCutSparesLocals(q: Lists, all: set<Tx>, all': set<Tx>, q': Lists, w: World, maxGas: nat,
                             locals: set<Address>)
    requires QueueCut(q, all, locals, {}, q', all')
    ensures LocalsSafe(all, all', w, maxGas, locals)
  {
  }

  lemma TruncationSparesLocals(p: Lists, all: set<Tx>, p': Lists, all': set<Tx>, w: World, maxGas: nat,
                               locals: set<Address>, slots: nat, limit: nat, level: nat)
    requires Shortened(p, all, p', all') && Truncated(SizesOf(p), locals, slots, limit, level, SizesOf(p'))
    ensures LocalsSafe(all, all', w, maxGas, locals)
  {
    hide Hopeless, Sum;
    forall t | t in all && t !in all'
      ensures t.from !in locals
    {
      var a := t.from;
      assert Listed(p, t) && !Listed(p', t);
      assert PartOf(Get(p', a), Get(p, a));
      if a in locals {
        assert SizesOf(p)[a] == |p[a]|;
        assert a in SizesOf(p') && SizesOf(p')[a] == SizesOf(p)[a];
        SameSizeSame(p[a], p'[a]);
      }
    }
  }

  lemma SameSizeSame(items: Items, rest: Items)
    requires PartOf(rest, items) && |rest| == |items|
    ensures rest == items
  {
    assert rest.Keys <= items.Keys && |rest.Keys| == |items.Keys|;
    if rest.Keys != items.Keys {
      var n :| n in items.Keys && n !in rest.Keys;
      assert rest.Keys <= items.Keys - {n};
      SubsetSize(rest.Keys, items.Keys - {n});
    }
    assert rest.Keys == items.Keys;
  }

  lemma SubsetSize(s: set<nat>, u: set<nat>)
    requires s <= u
    ensures |s| <= |u|
  {
    assert u == s + (u - s);
  }

  /******* After both limits *******/

  /** Losing transactions leaves nothing ready that was not. */
  lemma StaysSettled(p: Lists, q: Lists, pn: Nonces, p': Lists, q': Lists, pn': Nonces, w: World, a: Address)
    requires SettledAt(p, q, pn, w, a) && PartOf(Get(p', a), Get(p, a)) && PartOf(Get(q', a), Get(q, a))
    requires UpToDateAt(p', pn', w, a) <==> UpToDateAt(p, pn, w, a)
    ensures SettledAt(p', q', pn', w, a)
  {
    hide UpToDateAt;
    var items, rest := Get(p, a), Get(p', a);
    SubsetSize(rest.Keys, items.Keys);
    assert |rest| == |rest.Keys| && |items| == |items.Keys|;
  }

  /** What the limits leave of a promoted pool. */
  ghost predicate Limited(s: Promotion, kept: set<Tx>, level: nat, locals: set<Address>, slots: nat, globalSlots: nat,
                          globalQueue: nat, p': Lists, q': Lists, all': set<Tx>) {
    && Shortened(s.p', s.all', p', kept) && Truncated(SizesOf(s.p'), locals, slots, globalSlots, level, SizesOf(p'))
    && QueueCut(s.q', kept, locals, {}, q', all') && QueueFits(s.q', kept, q', all', locals, globalQueue)
  }

  lemma SettledAfterLimits(s: Promotion, kept: set<Tx>, p': Lists, q': Lists, all': set<Tx>, pn': Nonces, w: World,
                           maxGas: nat, locals: set<Address>, limit: nat, done: set<Address>)
    requires Promoting(s, w, maxGas, locals, limit, done) && SameTracking(s.p', s.pn', p', pn', w)
    requires Shortened(s.p', s.all', p', kept) && QueueCut(s.q', kept, locals, {}, q', all')
    ensures forall a :: a in done || a !in s.q ==> SettledAt(p', q', pn', w, a)
  {
    hide SettledAt, UpToDateAt, Hopeless, Droppable;
    forall a | a in done || a !in s.q
      ensures SettledAt(p', q', pn', w, a)
    {
      assert PromotingAt(s, w, maxGas, locals, limit, done, a);
      assert CutAtTopAt(s.q', q', {}, a);
      assert PartOf(Get(p', a), Get(s.p', a));
      assert UpToDateAt(p', pn', w, a) <==> UpToDateAt(s.p', s.pn', w, a);
      if a in done {
        StaysSettled(s.p', s.q', s.pn', p', q', pn', w, a);
      } else {
        EmptySettled(p', q', pn', w, a);
      }
    }
  }

  lemma EmptySettled(p: Lists, q: Lists, pn: Nonces, w: World, a: Address)
    requires Get(q, a) == map[]
    ensures SettledAt(p, q, pn, w, a)
  {
  }

  lemma LimitedFewer(s: Promotion, kept: set<Tx>, level: nat, locals: set<Address>, slots: nat, globalSlots: nat,
                     globalQueue: nat, p': Lists, q': Lists, all': set<Tx>)
    requires Limited(s, kept, level, locals, slots, globalSlots, globalQueue, p', q', all')
    ensures all' <= s.all'
  {
    hide Truncated, QueueFits, SizesOf;
  }

  lemma FewerNoneHopeless(all: set<Tx>, all': set<Tx>, w: World, maxGas: nat, locals: set<Address>)
    requires NoneHopeless(all, w, maxGas) && LocalsSafe(all, all', w, maxGas, locals)
    ensures NoneHopeless(all', w, maxGas)
  {
    hide Hopeless;
  }

  /** Demotion leaves no hopeless executable transaction and promotion no hopeless queued one. */
  lemma PromotedNoneHopeless(p: Lists, demoted: Lists, s: Promotion, all: set<Tx>, w: World, maxGas: nat,
                             locals: set<Address>, limit: nat)
    requires Core(demoted, s.q, s.all, {}) && Demoting(p, w, maxGas, demoted, {})
    requires Promoting(s, w, maxGas, locals, limit, s.q.Keys) && all <= s.all'
    ensures NoneHopeless(all, w, maxGas)
  {
    hide Core, Demoting, Promoting, PromotingAt, Hopeless, Listed;
    forall t | t in all
      ensures !Hopeless(t, w, maxGas)
    {
      assert t in s.all by { PromotedFewer(s, w, maxGas, locals, limit, s.q.Keys); }
      AllIsListed(demoted, s.q, s.all, t);
      if Listed(demoted, t) {
        DemotedNotHopeless(p, w, maxGas, demoted, t);
      } else {
        QueuedNotHopeless(s, w, maxGas, locals, limit, t);
      }
    }
  }

  lemma PromotedFewer(s: Promotion, w: World, maxGas: nat, locals: set<Address>, limit: nat, done: set<Address>)
    requires Promoting(s, w, maxGas, locals, limit, done)
    ensures s.all' <= s.all
  {
  }

  lemma DemotedNotHopeless(p: Lists, w: World, maxGas: nat, p': Lists, t: Tx)
    requires Demoting(p, w, maxGas, p', {}) && Listed(p', t)
    ensures !Hopeless(t, w, maxGas)
  {
    hide Unpayable;
    assert DemotingAt(p, w, maxGas, p', {}, t.from);
  }

  lemma QueuedNotHopeless(s: Promotion, w: World, maxGas: nat, locals: set<Address>, limit: nat, t: Tx)
    requires Promoting(s, w, maxGas, locals, limit, s.q.Keys) && t in s.all' && Listed(s.q, t)
    ensures !Hopeless(t, w, maxGas)
  {
    hide Hopeless, SettledAt, Droppable;
    assert PromotingAt(s, w, maxGas, locals, limit, s.q.Keys, t.from);
  }
}
