/** The transaction pool (TxPool in core/tx_pool.go). */
module TxPool {
  import opened Types
  import opened Gas
  import opened SortedMap
  import opened TxList
  import opened PoolLists
  import opened PricedList
  import opened PoolCore
  import opened PoolNonces
  import opened PoolLevels
  import opened Sums
  import opened PoolReset
  import opened PoolAdd
  import Heap
  import Dexcon
  import DexconApplication
  import PayloadBuilder
  import Sequencing

  /** The limits, as sanitised: none is zero. */
  datatype Config = Config(priceBump: nat, accountSlots: nat, globalSlots: nat, accountQueue: nat, globalQueue: nat,
                             homestead: bool)

  datatype TxStatus = Unknown | Queued | Pending

  class TxPool {
    const config: Config
    const priced: TxPricedList
    var pending: Lists
    var queue: Lists
    var all: set<Tx>
    var pendingNonce: map<Address, nat>
    var world: World
    var maxGas: nat
    var locals: set<Address>
    var gasPrice: nat
    var govGasPrice: nat

    /** An empty pool on the given state. */
    constructor (config: Config, world: World, maxGas: nat, locals: set<Address>, gasPrice: nat, govGasPrice: nat)
      ensures Valid() && UpToDate(pending, pendingNonce, world) && fresh(priced)
      ensures this.config == config && this.world == world && this.maxGas == maxGas && this.locals == locals
      ensures this.gasPrice == gasPrice && this.govGasPrice == govGasPrice && all == {}
    {
      this.config, this.world, this.maxGas, this.locals := config, world, maxGas, locals;
      this.gasPrice, this.govGasPrice := gasPrice, govGasPrice;
      priced := new TxPricedList();
      pending, queue, all, pendingNonce := map[], map[], {}, map[];
    }

    /** Apart from the transactions in limbo every known one is in exactly one list, and apart from the
        unpriced ones every known one is on the price heap. */
    ghost predicate Consistent(limbo: set<Tx>, unpriced: set<Tx>)
      reads this, priced
    {
      Core(pending, queue, all, limbo) && PricedOk(all - unpriced, priced.items, priced.stales)
    }

    /** Nothing in limbo, no stored list empty, executable lists without gaps from the state nonce, and the
        tracked nonces following them. */
    ghost predicate Ordered()
      reads this, priced
    {
      && Consistent({}, {}) && NonEmpty(pending) && NonEmpty(queue)
      && GapFree(pending, world) && Tracks(pending, pendingNonce, world)
    }

    /** The pool between operations: ordered, and holding nothing too old or unpayable. */
    ghost predicate Valid()
      reads this, priced
    {
      Ordered() && NoneHopeless(all, world, maxGas)
    }

    lemma ValidMeans()
      ensures Valid() <==> Ordered() && NoneHopeless(all, world, maxGas)
      ensures Valid() ==> forall t :: t in all ==>
                && t.nonce >= NonceOf(world, t.from) && t.gas <= maxGas
                && t.gas * t.price + t.value <= BalanceOf(world, t.from)
      ensures Ordered() ==> Core(pending, queue, all, {}) && GapFree(pending, world) && NonEmpty(queue)
    {
    }

    /** all.Remove and priced.Removed for one transaction. */
    method ForgetKnown(was: Tx, ghost unpriced: set<Tx>)
      requires PricedOk(all - unpriced, priced.items, priced.stales) && unpriced == {}
      modifies `all, priced
      ensures PricedOk(all - unpriced, priced.items, priced.stales) && all == old(all) - {was}
    {
      hide PricedOk;
      HeapOf(all - unpriced, priced.items, priced.stales);
      OneLess(all, was);
      ghost var known := all - unpriced;
      all := all - {was};
      assert known == old(all) && all - unpriced == all;
      priced.Removed(all);
      AfterRemoved(known, all, old(priced.items), old(priced.stales), priced.items, priced.stales);
    }

    /** all.Add and priced.Put for one transaction. */
    method MakeKnown(tx: Tx, ghost unpriced: set<Tx>)
      requires PricedOk(all - unpriced, priced.items, priced.stales) && unpriced == {} && tx !in all
      modifies `all, priced
      ensures PricedOk(all - unpriced, priced.items, priced.stales) && all == old(all) + {tx}
    {
      hide PricedOk;
      HeapOf(all - unpriced, priced.items, priced.stales);
      ghost var known := all - unpriced;
      all := all + {tx};
      priced.Put(tx);
      assert all - unpriced == known + {tx};
      AfterPut(known, tx, old(priced.items), old(priced.stales), priced.items);
    }

    /** Forget a transaction that is in no list. */
    method Drop(t: Tx, ghost limbo: set<Tx>)
      requires Consistent(limbo, {}) && t in limbo
      modifies `all, priced
      ensures Consistent(limbo - {t}, {}) && all == old(all) - {t}
    {
      hide Core, PricedOk;
      Forget(pending, queue, all, limbo, t);
      HeapOf(all - {}, priced.items, priced.stales);
      ghost var known := all - {};
      OneLess(all, t);
      all := all - {t};
      assert known == old(all) && all - {} == all;
      priced.Removed(all);
      AfterRemoved(known, all, old(priced.items), old(priced.stales), priced.items, priced.stales);
    }

    /** Forget transactions that are in no list. */
    method DropAll(txs: seq<Tx>, ghost limbo: set<Tx>)
      requires Consistent(limbo, {}) && NoRepeats(txs) && forall t :: t in txs ==> t in limbo
      modifies `all, priced
      ensures Consistent(limbo - Elems(txs), {}) && all == old(all) - Elems(txs)
    {
      hide Core, PricedOk, NoRepeats;
      assert limbo - Elems(txs[..0]) == limbo && old(all) - Elems(txs[..0]) == all;
      for i := 0 to |txs|
        invariant Consistent(limbo - Elems(txs[..i]), {}) && all == old(all) - Elems(txs[..i])
      {
        ElemsSnoc(txs, i);
        Drop(txs[i], limbo - Elems(txs[..i]));
        assert limbo - Elems(txs[..i]) - {txs[i]} == limbo - Elems(txs[..i + 1]);
      }
      assert txs[..|txs|] == txs;
    }

    /** Insert into the gapped list of the sender. A transaction that is already known must find its place
        free. */
    method EnqueueTx(tx: Tx, ghost limbo: set<Tx>, ghost unpriced: set<Tx>) returns (replaced: bool, ok: bool)
      requires Core(pending, queue, all - {tx}, limbo) && PricedOk(all - unpriced, priced.items, priced.stales)
      requires tx.nonce !in Get(pending, tx.from) && SlotFree(limbo, tx)
      requires tx in all ==> tx.nonce !in Get(queue, tx.from)
      requires tx in all || unpriced == {}
      modifies `queue, `all, priced
      ensures ok == Replaces(Get(old(queue), tx.from), tx, config.priceBump)
      ensures replaced == (ok && tx.nonce in Get(old(queue), tx.from))
      ensures ok ==> Consistent(limbo, unpriced) && queue == Put(old(queue), tx)
      ensures ok ==> all == old(all) - Occupant(old(queue), tx) + {tx}
      ensures !ok ==> queue == old(queue) && all == old(all)
      ensures !ok || tx in old(all) ==> priced.items == old(priced.items) && priced.stales == old(priced.stales)
    {
      hide Core, PricedOk, Outbids;
      var list := Get(queue, tx.from);
      EntersExactlyWhen(list, tx, config.priceBump);
      if !Enters(list, tx, config.priceBump) {
        return false, false;
      }
      CoreFlip(pending, queue, all - {tx}, limbo);
      Supersede(queue, pending, all - {tx}, limbo, tx);
      ghost var others := all - {tx} - Occupant(queue, tx) + {tx};
      CoreFlip(Put(queue, tx), pending, others, limbo);
      replaced := tx.nonce in list;
      queue := Put(queue, tx);
      if replaced {
        var was := list[tx.nonce];
        ForgetKnown(was, unpriced);
      }
      if tx !in all {
        MakeKnown(tx, unpriced);
      }
      assert all == others;
      return replaced, true;
    }

    /** Move transactions that are in no list to the gapped list of their sender. None is lost. */
    method EnqueueAll(txs: seq<Tx>, ghost limbo: set<Tx>, ghost unpriced: set<Tx>)
      requires Consistent(limbo, unpriced) && NonEmpty(queue)
      requires NoRepeats(txs) && forall t :: t in txs ==> t in limbo
      modifies `queue, `all, priced
      ensures Consistent(limbo - Elems(txs), unpriced) && NonEmpty(queue) && all == old(all)
    {
      hide Core, PricedOk, NoRepeats, NonEmpty;
      assert limbo - Elems(txs[..0]) == limbo;
      for i := 0 to |txs|
        invariant Consistent(limbo - Elems(txs[..i]), unpriced) && NonEmpty(queue) && all == old(all)
      {
        ElemsSnoc(txs, i);
        ghost var left := limbo - Elems(txs[..i]);
        Aside(pending, queue, all, left, txs[i]);
        assert left - {txs[i]} == limbo - Elems(txs[..i + 1]);
        PutNonEmpty(queue, txs[i]);
        var _, _ := EnqueueTx(txs[i], left - {txs[i]}, unpriced);
        assert old(all) - {} + {txs[i]} == old(all);
      }
      assert txs[..|txs|] == txs;
    }

    /** Insert into the executable list of the sender; a transaction there that is better stays. */
    method PromoteTx(tx: Tx, ghost limbo: set<Tx>) returns (ok: bool)
      requires Core(pending, queue, all - {tx}, limbo) && PricedOk(all - {}, priced.items, priced.stales)
      requires tx.nonce !in Get(queue, tx.from) && SlotFree(limbo, tx)
      modifies `pending, `all, `pendingNonce, priced
      ensures Consistent(limbo, {}) && ok == Replaces(Get(old(pending), tx.from), tx, config.priceBump)
      ensures ok ==> pending == Put(old(pending), tx) && pendingNonce == old(pendingNonce)[tx.from := tx.nonce + 1]
      ensures ok ==> all == old(all) - Occupant(old(pending), tx) + {tx}
      ensures !ok ==> pending == old(pending) && pendingNonce == old(pendingNonce) && all == old(all) - {tx}
    {
      hide Core, PricedOk, Outbids;
      var list := Get(pending, tx.from);
      EntersExactlyWhen(list, tx, config.priceBump);
      if !Enters(list, tx, config.priceBump) {
        ForgetKnown(tx, {});
        return false;
      }
      Supersede(pending, queue, all - {tx}, limbo, tx);
      ghost var others := all - {tx} - Occupant(pending, tx) + {tx};
      pending := Put(pending, tx);
      if tx.nonce in list {
        var was := list[tx.nonce];
        ForgetKnown(was, {});
      }
      if tx !in all {
        MakeKnown(tx, {});
      }
      assert all == others;
      pendingNonce := pendingNonce[tx.from := tx.nonce + 1];
      return true;
    }

    /** Promote a run of transactions that continues the executable list: all of them enter. */
    method PromoteRun(a: Address, ready: seq<Tx>, ghost start: nat, ghost limbo: set<Tx>)
      requires Consistent(limbo, {}) && NonEmpty(pending)
      requires NoRepeats(ready) && forall t :: t in ready ==> t in limbo
      requires GapFreeFrom(Get(pending, a), start)
      requires Continues(ready, a, start + |Get(pending, a)|)
      modifies `pending, `all, `pendingNonce, priced
      ensures Consistent(limbo - Elems(ready), {}) && NonEmpty(pending) && all == old(all)
      ensures Grown(old(pending), pending, a, start, |ready|)
      ensures pendingNonce == Raised(old(pendingNonce), a, |ready|, start + |Get(old(pending), a)| + |ready|)
    {
      hide Core, PricedOk, NoRepeats, NonEmpty, GapFreeFrom, Grown;
      GrowStart(pending, a, start);
      assert limbo - Elems(ready[..0]) == limbo;
      for i := 0 to |ready|
        invariant Consistent(limbo - Elems(ready[..i]), {}) && NonEmpty(pending) && all == old(all)
        invariant Grown(old(pending), pending, a, start, i)
        invariant pendingNonce == Raised(old(pendingNonce), a, i, start + |Get(old(pending), a)| + i)
      {
        ElemsSnoc(ready, i);
        ghost var left := limbo - Elems(ready[..i]);
        Aside(pending, queue, all, left, ready[i]);
        assert left - {ready[i]} == limbo - Elems(ready[..i + 1]);
        PutNonEmpty(pending, ready[i]);
        GrowStep(old(pending), pending, a, start, i, ready[i]);
        var ok := PromoteTx(ready[i], left - {ready[i]});
        assert old(all) - {} + {ready[i]} == old(all);
      }
      assert ready[..|ready|] == ready;
    }

    method RemovePending(t: Tx, ghost unpriced: set<Tx>)
      requires Core(pending, queue, all + {t}, {}) && PricedOk(all - unpriced, priced.items, priced.stales)
      requires NonEmpty(pending) && NonEmpty(queue) && t !in all && Listed(pending, t)
      modifies `pending, `queue, `all, priced
      ensures Consistent({}, unpriced) && NonEmpty(pending) && NonEmpty(queue) && all == old(all)
      ensures pending == Store(old(pending), t.from, BelowNonce(Get(old(pending), t.from), t.nonce))
    {
      hide Core, PricedOk, NonEmpty, NoRepeats;
      ghost var items := Get(pending, t.from);
      ListKeyed(pending, queue, all + {t}, {}, t.from);
      var invalids, rest := RemoveStrict(Get(pending, t.from), t.nonce);
      Detach(pending, queue, all + {t}, {}, t.from, rest);
      CoreStore(pending, queue, all + {t}, {} + Lost(items, rest), t.from, rest);
      StoreContents(pending, t.from, rest);
      pending := Store(pending, t.from, rest);
      LostSplit(items, t, rest, invalids);
      Forget(pending, queue, all + {t}, {} + Lost(items, rest), t);
      ghost var limbo := {} + Lost(items, rest) - {t};
      assert all + {t} - {t} == all && limbo == Elems(invalids);
      EnqueueAll(invalids, limbo, unpriced);
      assert limbo - Elems(invalids) == {};
    }

    /** Remove one transaction. If it was executable, everything of the account above it becomes gapped and
        the tracked nonce falls back to it. Unless `outOfBound`, the price heap has already let go of it. */
    method RemoveTx(t: Tx, outOfBound: bool, ghost unpriced: set<Tx>)
      requires Consistent({}, unpriced) && NonEmpty(pending) && NonEmpty(queue)
      requires if outOfBound then unpriced == {} else t in all ==> t in unpriced
      modifies `pending, `queue, `all, `pendingNonce, priced
      ensures Consistent({}, unpriced - {t}) && NonEmpty(pending) && NonEmpty(queue) && all == old(all) - {t}
      ensures Listed(old(pending), t) ==>
                && pending == Store(old(pending), t.from, BelowNonce(Get(old(pending), t.from), t.nonce))
                && pendingNonce == LowerTo(old(pendingNonce), world, t)
      ensures !Listed(old(pending), t) ==> pending == old(pending) && pendingNonce == old(pendingNonce)
      ensures !Listed(old(pending), t) ==>
                queue == if t in old(all) then Store(old(queue), t.from, Get(old(queue), t.from) - {t.nonce})
                         else old(queue)
    {
      hide Core, PricedOk, NonEmpty;
      AllIsListed(pending, queue, all, t);
      if t !in all {
        assert all - unpriced == all - (unpriced - {t}) && all == all - {t};
        return;
      }
      if outOfBound {
        ForgetKnown(t, unpriced);
        assert unpriced - {t} == unpriced;
      } else {
        all := all - {t};
        assert all - (unpriced - {t}) == old(all) - unpriced;
      }
      assert all + {t} == old(all);
      if t.nonce in Get(pending, t.from) {
        RemovePending(t, unpriced - {t});
        pendingNonce := LowerTo(pendingNonce, world, t);
      } else {
        var future := Get(queue, t.from) - {t.nonce};
        CoreFlip(pending, queue, old(all), {});
        RemoveListed(queue, pending, old(all), t);
        CoreFlip(Store(queue, t.from, future), pending, all, {});
        StoreContents(queue, t.from, future);
        queue := Store(queue, t.from, future);
      }
    }

    /** Remove transactions the price heap has let go of. Each account is cut at the lowest of them. */
    method RemoveAll(txs: seq<Tx>)
      requires Consistent({}, Elems(txs)) && NonEmpty(pending) && NonEmpty(queue)
      modifies `pending, `queue, `all, `pendingNonce, priced
      ensures Consistent({}, {}) && NonEmpty(pending) && NonEmpty(queue) && all == old(all) - Elems(txs)
      ensures CutDown(old(pending), old(pendingNonce), world, txs, pending, pendingNonce)
    {
      hide Core, PricedOk, NonEmpty, CutDown, Store, LowerTo, Listed;
      CutDownStart(pending, pendingNonce, world);
      assert txs[..0] == [];
      assert Elems(txs) - Elems(txs[..0]) == Elems(txs) && old(all) - Elems(txs[..0]) == all;
      for i := 0 to |txs|
        invariant Consistent({}, Elems(txs) - Elems(txs[..i])) && NonEmpty(pending) && NonEmpty(queue)
        invariant all == old(all) - Elems(txs[..i])
        invariant CutDown(old(pending), old(pendingNonce), world, txs[..i], pending, pendingNonce)
      {
        ElemsSnoc(txs, i);
        ghost var p, pn := pending, pendingNonce;
        RemoveTx(txs[i], false, Elems(txs) - Elems(txs[..i]));
        assert Elems(txs) - Elems(txs[..i]) - {txs[i]} == Elems(txs) - Elems(txs[..i + 1]);
        assert txs[..i + 1] == txs[..i] + [txs[i]];
        CutDownStep(old(pending), old(pendingNonce), world, txs[..i], p, pn, txs[i], pending, pendingNonce);
      }
      assert txs[..|txs|] == txs;
      assert Elems(txs) - Elems(txs) == {};
    }

    /** Drop every remote transaction below the price. */
    method RemoveUnderpriced(price: nat) returns (ghost drop: seq<Tx>)
      requires Consistent({}, {}) && NonEmpty(pending) && NonEmpty(queue)
      modifies `pending, `queue, `all, `pendingNonce, priced
      ensures forall t :: t in drop <==> t in old(all) && t.price < price && Remote(t, locals)
      ensures Consistent({}, {}) && NonEmpty(pending) && NonEmpty(queue) && all == old(all) - Elems(drop)
      ensures CutDown(old(pending), old(pendingNonce), world, drop, pending, pendingNonce)
    {
      hide Core, PricedOk, NonEmpty, CutDown;
      assert all - {} == all;
      HeapOf(all, priced.items, priced.stales);
      var txs := priced.Cap(price, all, locals);
      AfterTaken(all, txs, old(priced.items), old(priced.stales), priced.items, priced.stales);
      RemoveAll(txs);
      drop := txs;
    }

    /** Raise or lower the pool's own minimum price: exactly the remote transactions below it go. */
    method SetGasPrice(price: nat) returns (ghost drop: seq<Tx>)
      requires Valid()
      modifies `gasPrice, `pending, `queue, `all, `pendingNonce, priced
      ensures Valid() && gasPrice == price
      ensures forall t :: t in all <==> t in old(all) && (t.price >= price || t.from in locals)
      ensures forall t :: t in drop <==> t in old(all) && t !in all
      ensures CutDown(old(pending), old(pendingNonce), world, drop, pending, pendingNonce)
      ensures SameTracking(old(pending), old(pendingNonce), pending, pendingNonce, world)
    {
      hide Core, PricedOk, NonEmpty, CutDown, GapFree, Tracks, SameTracking, Hopeless;
      gasPrice := price;
      drop := RemoveUnderpriced(price);
      CutDownKeeps(old(pending), old(pendingNonce), world, drop, pending, pendingNonce);
    }

    /** Take transactions off an executable list and forget them. */
    method DropFromPending(a: Address, off: seq<Tx>, rest: Items)
      requires Consistent({}, {}) && TakenOff(Get(pending, a), rest, off)
      modifies `pending, `all, priced
      ensures Consistent({}, {}) && pending == old(pending)[a := rest] && all == old(all) - Elems(off)
    {
      hide Core, PricedOk, NoRepeats, TakenOff;
      DetachOff(pending, queue, all, a, rest, off);
      pending := pending[a := rest];
      DropAll(off, Elems(off));
    }

    /** Take transactions off a gapped list and forget them. */
    method DropFromQueue(a: Address, off: seq<Tx>, rest: Items)
      requires Consistent({}, {}) && TakenOff(Get(queue, a), rest, off)
      modifies `queue, `all, priced
      ensures Consistent({}, {}) && queue == old(queue)[a := rest] && all == old(all) - Elems(off)
    {
      hide Core, PricedOk, NoRepeats, TakenOff;
      CoreFlip(pending, queue, all, {});
      DetachOff(queue, pending, all, a, rest, off);
      CoreFlip(queue[a := rest], pending, all, Elems(off));
      queue := queue[a := rest];
      DropAll(off, Elems(off));
    }

    /** Take transactions off an executable list and queue them. */
    method DemoteFromPending(a: Address, off: seq<Tx>, rest: Items)
      requires Consistent({}, {}) && NonEmpty(queue) && TakenOff(Get(pending, a), rest, off)
      modifies `pending, `queue, `all, priced
      ensures Consistent({}, {}) && NonEmpty(queue) && pending == old(pending)[a := rest] && all == old(all)
    {
      hide Core, PricedOk, NoRepeats, TakenOff, NonEmpty;
      DetachOff(pending, queue, all, a, rest, off);
      pending := pending[a := rest];
      EnqueueAll(off, Elems(off), {});
    }

    /** Drop the hopeless transactions of an executable list and queue those they invalidate. */
    method CleanPending(a: Address, ghost start: nat) returns (rest: Items)
      requires Consistent({}, {}) && NonEmpty(queue) && GapFreeFrom(Get(pending, a), start)
      modifies `pending, `queue, `all, priced
      ensures Consistent({}, {}) && NonEmpty(queue) && pending == old(pending)[a := rest] && Keyed(rest)
      ensures ExecutableRun(Get(old(pending), a), NonceOf(world, a), BalanceOf(world, a), maxGas,
                            if NonceOf(world, a) in rest then rest else map[])
      ensures forall t :: t in all <==>
                            t in old(all) && !(t.from == a && Listed(old(pending), t) && Hopeless(t, world, maxGas))
    {
      hide Core, PricedOk, NonEmpty, TakenOff, CutAtUnpayable, Unpayable, GapFreeFrom, ExecutableRun, Hopeless;
      hide FromNonce, Kept;
      var nonce, balance := NonceOf(world, a), BalanceOf(world, a);
      var items := Get(pending, a);
      ListKeyed(pending, queue, all, {}, a);
      var aged, kept := Forward(items, nonce);
      DropFromPending(a, aged, kept);
      ListKeyed(pending, queue, all, {}, a);
      var dear, invalids, payable: Items;
      dear, invalids, payable, rest := FilterStrict(kept, balance, maxGas);
      DropFromPending(a, dear, payable);
      StoreOver(old(pending), a, kept, payable);
      DemoteFromPending(a, invalids, rest);
      StoreOver(old(pending), a, payable, rest);
      ListKeyed(pending, queue, all, {}, a);
      DemotionLeavesRun(items, start, nonce, balance, maxGas, rest);
      HopelessGo(items, a, world, maxGas, aged, dear);
    }

    /** Bring one executable list in line with the state: exactly the hopeless transactions are dropped, the
        executable run stays and everything else is queued. */
    method DemoteAccount(a: Address, ghost start: nat)
      requires Consistent({}, {}) && NonEmpty(pending) && NonEmpty(queue) && GapFreeFrom(Get(pending, a), start)
      modifies `pending, `queue, `all, priced
      ensures Consistent({}, {}) && NonEmpty(pending) && NonEmpty(queue) && SameBut(old(pending), pending, a)
      ensures ExecutableRun(Get(old(pending), a), NonceOf(world, a), BalanceOf(world, a), maxGas, Get(pending, a))
      ensures forall t :: t in all <==>
                            t in old(all) && !(t.from == a && Listed(old(pending), t) && Hopeless(t, world, maxGas))
    {
      hide Core, PricedOk, NonEmpty, TakenOff, GapFreeFrom, ExecutableRun, Hopeless, Listed, Keyed, Store;
      var rest := CleanPending(a, start);
      if |rest| > 0 && NonceOf(world, a) !in rest {
        var gapped, nothing := Cap(rest, 0);
        DemoteFromPending(a, gapped, nothing);
        StoreOver(old(pending), a, rest, nothing);
        rest := nothing;
      }
      CoreStore(old(pending), queue, all, {}, a, rest);
      StoreContents(old(pending), a, rest);
      StoreOver(old(pending), a, rest, rest);
      pending := Store(pending, a, rest);
    }

    /** Bring every executable list in line with the state, whatever state they were gap-free from. */
    method DemoteUnexecutables(ghost anchor: World)
      requires Consistent({}, {}) && NonEmpty(pending) && NonEmpty(queue) && GapFree(pending, anchor)
      modifies `pending, `queue, `all, priced
      ensures Consistent({}, {}) && NonEmpty(pending) && NonEmpty(queue)
      ensures Demoting(old(pending), world, maxGas, pending, {})
      ensures forall t :: t in all <==> t in old(all) && !DroppedByDemotion(old(pending), world, maxGas, {}, t)
    {
      hide Core, PricedOk, NonEmpty, GapFreeFrom, ExecutableRun, Hopeless, Listed, Demoting, GapFree;
      ghost var p0 := pending;
      var todo := pending.Keys;
      DemotingStart(pending, world, maxGas);
      NoneDropped(pending, world, maxGas);
      while todo != {}
        invariant Consistent({}, {}) && NonEmpty(pending) && NonEmpty(queue)
        invariant Demoting(p0, world, maxGas, pending, todo)
        invariant forall t :: t in all <==> t in old(all) && !DroppedByDemotion(p0, world, maxGas, todo, t)
      {
        var a :| a in todo;
        ghost var p1 := pending;
        StillGapFree(p0, anchor, world, maxGas, p1, todo, a);
        DemoteAccount(a, NonceOf(anchor, a));
        DemotingStep(p0, world, maxGas, p1, todo, a, pending);
        DropStep(p0, world, maxGas, p1, todo, a);
        todo := todo - {a};
      }
    }

    /** Drop the hopeless transactions of a gapped list. */
    method CleanQueue(a: Address) returns (payable: Items)
      requires Consistent({}, {})
      modifies `queue, `all, priced
      ensures Consistent({}, {}) && queue == old(queue)[a := payable] && PartOf(payable, Get(old(queue), a))
      ensures AtLeast(payable, NonceOf(world, a))
      ensures forall t :: t in all <==>
                            t in old(all) && !(t.from == a && Listed(old(queue), t) && Hopeless(t, world, maxGas))
    {
      hide Core, PricedOk, TakenOff, Unpayable, Hopeless;
      var items := Get(queue, a);
      ListKeyed(pending, queue, all, {}, a);
      var aged, kept := Forward(items, NonceOf(world, a));
      DropFromQueue(a, aged, kept);
      ListKeyed(pending, queue, all, {}, a);
      var dear;
      dear, payable := Filter(kept, BalanceOf(world, a), maxGas);
      DropFromQueue(a, dear, payable);
      StoreOver(old(queue), a, kept, payable);
      HopelessGo(items, a, world, maxGas, aged, dear);
    }

    /** Take the run of queued transactions that continues the executable list off the queue. */
    method TakeReady(a: Address) returns (ready: seq<Tx>, rest: Items)
      requires Consistent({}, {}) && GapFree(pending, world) && Tracks(pending, pendingNonce, world)
      requires AtLeast(Get(queue, a), NonceOf(world, a))
      modifies `queue
      ensures Consistent(Elems(ready), {}) && queue == old(queue)[a := rest] && PartOf(rest, Get(old(queue), a))
      ensures NoRepeats(ready) && GapFreeFrom(Get(pending, a), NonceOf(world, a))
      ensures Continues(ready, a, NonceOf(world, a) + |Get(pending, a)|)
      ensures |ready| > 0 ==> UpToDateAt(pending, pendingNonce, world, a)
      ensures Beyond(rest, if |ready| == 0 then PendingNonce(pendingNonce, world, a)
                           else NonceOf(world, a) + |Get(pending, a)| + |ready|)
    {
      hide Core, PricedOk, TakenOff, GapFreeFrom, NoRepeats, GapFree, Tracks, UpToDateAt;
      hide PartOf, Keyed, KeyedFor, RunFrom, FromNonce, Continues, AtLeast;
      var items := Get(queue, a);
      ListKeyed(pending, queue, all, {}, a);
      ready, rest := Ready(items, PendingNonce(pendingNonce, world, a));
      ReadyRun(pending, queue, all, pendingNonce, world, a, ready);
      RestBeyond(items, PendingNonce(pendingNonce, world, a), ready, rest);
      CoreFlip(pending, queue, all, {});
      DetachOff(queue, pending, all, a, rest, ready);
      CoreFlip(queue[a := rest], pending, all, Elems(ready));
      queue := queue[a := rest];
    }

    /** Move the run of queued transactions that continues the executable list. What stays queued lies beyond
        the tracked nonce. */
    method PromoteReady(a: Address) returns (rest: Items)
      requires Consistent({}, {}) && NonEmpty(pending)
      requires GapFree(pending, world) && Tracks(pending, pendingNonce, world)
      requires AtLeast(Get(queue, a), NonceOf(world, a))
      modifies `pending, `queue, `all, `pendingNonce, priced
      ensures Consistent({}, {}) && NonEmpty(pending) && all == old(all)
      ensures queue == old(queue)[a := rest] && PartOf(rest, Get(old(queue), a))
      ensures GapFree(pending, world) && Tracks(pending, pendingNonce, world)
      ensures SameTracking(old(pending), old(pendingNonce), pending, pendingNonce, world)
      ensures Extended(old(pending), pending) && SameBut(old(pending), pending, a)
      ensures Beyond(rest, PendingNonce(pendingNonce, world, a))
    {
      hide *;
      ghost var p0, pn0, w := pending, pendingNonce, world;
      ghost var nonce := NonceOf(w, a);
      var ready;
      ready, rest := TakeReady(a);
      AllElems(ready);
      ghost var k := |ready|;
      PromoteRun(a, ready, nonce, Elems(ready));
      assert Grown(p0, pending, a, nonce, k);
      assert pendingNonce == Raised(pn0, a, k, nonce + |Get(p0, a)| + k);
      PromotionKeeps(p0, pn0, w, a, k, pending, pendingNonce);
    }

    /** Apply the account's limit to what stays queued. */
    method LimitQueue(a: Address, items: Items, ghost q0: Lists)
      requires Consistent({}, {}) && NonEmpty(q0) && queue == q0[a := items]
      modifies `queue, `all, priced
      ensures Consistent({}, {}) && NonEmpty(queue) && SameBut(q0, queue, a)
      ensures QueueLimited(items, Get(queue, a), old(all), all, a, locals, config.accountQueue)
      ensures a in locals || |items| <= config.accountQueue ==> Get(queue, a) == items
      ensures a !in locals && |items| > config.accountQueue ==> |Get(queue, a)| == config.accountQueue
    {
      hide Core, PricedOk, TakenOff, NonEmpty, Keyed, KeyedFor, Store, QueueLimited;
      var rest := items;
      if a !in locals {
        ListKeyed(pending, queue, all, {}, a);
        var over;
        over, rest := Cap(items, config.accountQueue);
        assert |items| <= config.accountQueue ==> rest == items by { SameBySize(items, rest, over); }
        LimitByCap(items, rest, over, all, a, locals, config.accountQueue);
        DropFromQueue(a, over, rest);
        StoreOver(q0, a, items, rest);
      } else {
        NoLimit(items, all, a, locals, config.accountQueue);
      }
      CoreFlip(pending, queue, all, {});
      CoreStore(q0, pending, all, {}, a, rest);
      CoreFlip(Store(q0, a, rest), pending, all, {});
      StoreContents(q0, a, rest);
      StoreOver(q0, a, rest, rest);
      queue := Store(queue, a, rest);
    }

    /** Promote what one account has ready, after dropping what is hopeless and before applying the account's
        limit to what stays queued. */
    method PromoteAccount(a: Address)
      requires Ordered()
      modifies `pending, `queue, `all, `pendingNonce, priced
      ensures Ordered() && Extended(old(pending), pending)
      ensures var s := Promotion(old(queue), old(all), pending, queue, all, pendingNonce);
              && OnlyAccount(old(pending), old(pendingNonce), s, world, a)
              && PromotedAt(s, world, maxGas, locals, config.accountQueue, a)
    {
      hide Core, PricedOk, NonEmpty, GapFree, Tracks, SameTracking, Hopeless, Extended, PartOf, Beyond, PendingNonce;
      hide Listed;
      hide AtLeast, QueueLimited, PromotedAt, SameBut;
      ghost var p0, pn0, q0, all0 := pending, pendingNonce, queue, all;
      NoChange(p0, pn0, world);
      NothingElse(p0, a);
      if a !in queue {
        NothingElse(q0, a);
        NothingQueued(Promotion(q0, all0, p0, q0, all0, pn0), world, maxGas, locals, config.accountQueue, a);
        return;
      }
      var payable := CleanQueue(a);
      ghost var all1 := all;
      var rest := PromoteReady(a);
      StoreOver(q0, a, payable, rest);
      LimitQueue(a, rest, q0);
      PromotedHere(Promotion(q0, all0, pending, queue, all, pendingNonce), all1, payable, rest, world, maxGas, locals,
                   config.accountQueue, a);
    }

    /** Promote what the given accounts have ready. No executable transaction is lost. */
    method PromoteAccounts(accounts: set<Address>)
      requires Ordered()
      modifies `pending, `queue, `all, `pendingNonce, priced
      ensures Ordered() && SameTracking(old(pending), old(pendingNonce), pending, pendingNonce, world)
      ensures Extended(old(pending), pending)
      ensures Promoting(Promotion(old(queue), old(all), pending, queue, all, pendingNonce), world, maxGas, locals,
                        config.accountQueue, accounts)
    {
      hide SameTracking, Extended, Ordered, Promoting, PromotedAt;
      ghost var p0, pn0, q0, all0 := pending, pendingNonce, queue, all;
      NoChange(p0, pn0, world);
      PromotingStart(q0, all0, p0, pn0, world, maxGas, locals, config.accountQueue);
      var todo := accounts;
      ghost var done: set<Address> := {};
      while todo != {}
        invariant todo <= accounts && done == accounts - todo
        invariant Ordered() && SameTracking(p0, pn0, pending, pendingNonce, world) && Extended(p0, pending)
        invariant Promoting(Promotion(q0, all0, pending, queue, all, pendingNonce), world, maxGas, locals,
                            config.accountQueue, done)
      {
        var a :| a in todo;
        ghost var p1, pn1 := pending, pendingNonce;
        ghost var s := Promotion(q0, all0, pending, queue, all, pendingNonce);
        PromoteAccount(a);
        SameTrackingTwice(p0, pn0, p1, pn1, pending, pendingNonce, world);
        ExtendedTwice(p0, p1, pending);
        PromotingStep(s, Promotion(s.q', s.all', pending, queue, all, pendingNonce), world, maxGas, locals,
                      config.accountQueue, done, a);
        todo, done := todo - {a}, done + {a};
      }
      assert done == accounts;
    }

    /** Since an earlier moment executable transactions have been forgotten and nothing else has happened. */
    ghost predicate OnlyShortened(p0: Lists, pn0: map<Address, nat>, all0: set<Tx>)
      reads this
    {
      SameTracking(p0, pn0, pending, pendingNonce, world) && Shortened(p0, all0, pending, all)
    }

    lemma NothingShortened()
      ensures OnlyShortened(pending, pendingNonce, all)
    {
      NoChange(pending, pendingNonce, world);
      ShortenedNot(pending, all);
    }

    /** Drop the last executable transaction of an account. */
    method DropLast(a: Address)
      requires Ordered() && |Get(pending, a)| >= 2
      modifies `pending, `all, `pendingNonce, priced
      ensures Ordered() && SameTracking(old(pending), old(pendingNonce), pending, pendingNonce, world)
      ensures Shortened(old(pending), old(all), pending, all)
      ensures a in old(pending) && SizesOf(pending) == SizesOf(old(pending))[a := |Get(old(pending), a)| - 1]
    {
      hide Core, PricedOk, NonEmpty, GapFree, Tracks, SameTracking, TakenOff, CutDown, Keyed, KeyedFor, LowerTo;
      hide Shortened, Store, BelowNonce, PartOf, Listed, SizesOf;
      ghost var p0, pn0 := pending, pendingNonce;
      ListKeyed(pending, queue, all, {}, a);
      var list := Get(pending, a);
      var off, rest := Cap(list, |list| - 1);
      LastOff(p0, pn0, world, a, list, rest, off);
      DropFromPending(a, off, rest);
      pendingNonce := LowerTo(pendingNonce, world, off[0]);
      CutDownKeeps(p0, pn0, world, [off[0]], pending, pendingNonce);
      StoreContents(p0, a, rest);
      ShortenedBy(p0, old(all), a, rest, off);
    }

    /** One round: every listed account loses its last executable transaction. */
    method Round(accounts: seq<Address>)
      requires Ordered() && Distinct(accounts) && forall a :: a in accounts ==> |Get(pending, a)| >= 2
      modifies `pending, `all, `pendingNonce, priced
      ensures Ordered() && OnlyShortened(old(pending), old(pendingNonce), old(all))
      ensures SizesOf(pending) == Lowered(SizesOf(old(pending)), Members(accounts))
      ensures Sum(SizesOf(pending)) == Sum(SizesOf(old(pending))) - |accounts|
    {
      hide SameTracking, Shortened, Ordered, Lowered, Distinct, Sum, Members;
      ghost var p0, pn0, all0 := pending, pendingNonce, all;
      ghost var sizes := SizesOf(p0);
      NoChange(p0, pn0, world);
      ShortenedNot(p0, all0);
      LowerNone(sizes);
      assert accounts[..0] == [];
      for i := 0 to |accounts|
        invariant Ordered() && OnlyShortened(p0, pn0, all0)
        invariant SizesOf(pending) == Lowered(sizes, Members(accounts[..i]))
        invariant Sum(SizesOf(pending)) == Sum(sizes) - i
      {
        ghost var p1, pn1, all1 := pending, pendingNonce, all;
        assert accounts[i] in accounts;
        assert accounts[i] in sizes && sizes[accounts[i]] >= 2;
        LowerNext(sizes, accounts, i);
        assert SizesOf(pending)[accounts[i]] == |Get(pending, accounts[i])|;
        DropLast(accounts[i]);
        SameTrackingTwice(p0, pn0, p1, pn1, pending, pendingNonce, world);
        ShortenedTwice(p0, all0, p1, all1, pending, all);
      }
      assert accounts[..|accounts|] == accounts;
    }

    /** Rounds over the same accounts until everything fits or they are down to the floor. */
    method Reduce(accounts: seq<Address>, pendingCount: nat, floor: nat,
                  ghost m: Sizes, ghost level0: nat, ghost rest: set<Address>)
      returns (count: nat, ghost level: nat)
      requires Ordered() && accounts != [] && Distinct(accounts) && 1 <= config.accountSlots
      requires pendingCount == Sum(SizesOf(pending))
      requires AtLevel(m, locals, config.accountSlots, config.globalSlots, level0, SizesOf(pending))
      requires Parted(m, locals, config.accountSlots, Members(accounts), rest, level0, floor)
      modifies `pending, `all, `pendingNonce, priced
      ensures Ordered() && OnlyShortened(old(pending), old(pendingNonce), old(all)) && count == Sum(SizesOf(pending))
      ensures AtLevel(m, locals, config.accountSlots, config.globalSlots, level, SizesOf(pending))
      ensures Parted(m, locals, config.accountSlots, Members(accounts), rest, level, floor)
      ensures count <= config.globalSlots || level == floor
    {
      hide SameTracking, Shortened, Ordered, Lowered, Distinct, Sum, Parted, AtLevel;
      ghost var p0, pn0, all0 := pending, pendingNonce, all;
      NoChange(p0, pn0, world);
      ShortenedNot(p0, all0);
      var slots, limit := config.accountSlots, config.globalSlots;
      count, level := pendingCount, level0;
      var last := accounts[|accounts| - 1];
      CutHasLevel(m, locals, slots, limit, level, SizesOf(pending), Members(accounts), rest, floor, last);
      FloorAboveSlots(m, locals, slots, Members(accounts), rest, level, floor);
      while count > limit && |Get(pending, last)| > floor
        invariant Ordered() && OnlyShortened(p0, pn0, all0) && count == Sum(SizesOf(pending))
        invariant AtLevel(m, locals, slots, limit, level, SizesOf(pending))
        invariant Parted(m, locals, slots, Members(accounts), rest, level, floor)
        invariant |Get(pending, last)| == level && level >= floor
      {
        ghost var p1, pn1, all1 := pending, pendingNonce, all;
        forall a | a in accounts
          ensures |Get(pending, a)| >= 2
        {
          CutHasLevel(m, locals, slots, limit, level, SizesOf(pending), Members(accounts), rest, floor, a);
        }
        LowerLevel(m, locals, slots, limit, level, SizesOf(pending), Members(accounts), rest, floor);
        Round(accounts);
        level := level - 1;
        CutHasLevel(m, locals, slots, limit, level, SizesOf(pending), Members(accounts), rest, floor, last);
        count := count - |accounts|;
        SameTrackingTwice(p0, pn0, p1, pn1, pending, pendingNonce, world);
        ShortenedTwice(p0, all0, p1, all1, pending, all);
      }
    }

    /** Take the next largest account and bring those before it down to its size. */
    method NextOffender(offenders: seq<Address>, spammers: set<Address>, pendingCount: nat, ghost m: Sizes,
                        ghost level0: nat)
      returns (offender: Address, count: nat, ghost level: nat)
      requires Ordered() && config.accountSlots >= 1 && Distinct(offenders) && spammers != {}
      requires pendingCount == Sum(SizesOf(pending)) && pendingCount > config.globalSlots
      requires AtLevel(m, locals, config.accountSlots, config.globalSlots, level0, SizesOf(pending))
      requires Parted(m, locals, config.accountSlots, Members(offenders), spammers, level0, level0)
      requires |offenders| == 0 ==> SizesOf(pending) == m
      modifies `pending, `all, `pendingNonce, priced
      ensures Ordered() && OnlyShortened(old(pending), old(pendingNonce), old(all)) && count == Sum(SizesOf(pending))
      ensures offender in spammers && Distinct(offenders + [offender])
      ensures AtLevel(m, locals, config.accountSlots, config.globalSlots, level, SizesOf(pending))
      ensures count > config.globalSlots ==>
                Parted(m, locals, config.accountSlots, Members(offenders + [offender]), spammers - {offender}, level,
                       level)
    {
      hide *;
      var slots, limit := config.accountSlots, config.globalSlots;
      ghost var cut := Members(offenders);
      NothingShortened();
      WaitingUncut(m, locals, slots, limit, level0, SizesOf(pending), cut, spammers);
      SizesKnown(pending);
      offender := Largest(pending, spammers);
      MembersSnoc(offenders, offender);
      if |offenders| == 0 {
        FirstLevel(m, locals, slots, limit, spammers, level0, offender);
        assert offenders == [];
        count, level := pendingCount, m[offender];
      } else {
        var threshold := |pending[offender]|;
        PartNext(m, locals, slots, cut, spammers, level0, offender);
        count, level := Reduce(offenders, pendingCount, threshold, m, level0, spammers);
      }
      if count > limit {
        PartJoin(m, locals, slots, cut, spammers, level, offender);
      }
    }

    /** If there are too many executable transactions, cut the largest remote accounts back level by level.
        The outcome is the largest level that fits, or the guaranteed slots. */
    method TruncatePending() returns (ghost level: nat)
      requires Ordered() && config.accountSlots >= 1
      modifies `pending, `all, `pendingNonce, priced
      ensures Ordered() && OnlyShortened(old(pending), old(pendingNonce), old(all))
      ensures Truncated(SizesOf(old(pending)), locals, config.accountSlots, config.globalSlots, level, SizesOf(pending))
    {
      hide SameTracking, Shortened, Ordered, Distinct, Sum, Parted, AtLevel, Members;
      ghost var p0, pn0, all0 := pending, pendingNonce, all;
      ghost var m := SizesOf(p0);
      var slots, limit := config.accountSlots, config.globalSlots;
      NothingShortened();
      var count := Count(pending);
      if count <= limit {
        return 0;
      }
      var spammers := set a | a in pending && a !in locals && |pending[a]| > slots;
      var offenders: seq<Address> := [];
      PartStart(m, locals, slots, limit, spammers);
      level := Sum(m) + slots;
      NoneDistinct();
      while count > limit && spammers != {}
        invariant Ordered() && OnlyShortened(p0, pn0, all0)
        invariant count == Sum(SizesOf(pending)) && AtLevel(m, locals, slots, limit, level, SizesOf(pending))
        invariant Distinct(offenders)
        invariant count > limit ==> Parted(m, locals, slots, Members(offenders), spammers, level, level)
        invariant |offenders| == 0 ==> pending == p0
        decreases spammers
      {
        ghost var p1, pn1, all1 := pending, pendingNonce, all;
        var offender;
        offender, count, level := NextOffender(offenders, spammers, count, m, level);
        SameTrackingTwice(p0, pn0, p1, pn1, pending, pendingNonce, world);
        ShortenedTwice(p0, all0, p1, all1, pending, all);
        spammers := spammers - {offender};
        offenders := offenders + [offender];
      }
      if count > limit && |offenders| > 0 {
        ghost var p1, pn1, all1 := pending, pendingNonce, all;
        PartLast(m, locals, slots, Members(offenders), level);
        count, level := Reduce(offenders, count, slots, m, level, {});
        SameTrackingTwice(p0, pn0, p1, pn1, pending, pendingNonce, world);
        ShortenedTwice(p0, all0, p1, all1, pending, all);
      } else if count > limit {
        assert offenders == [];
        NobodyLarge(m, locals, slots, limit, level);
        level := slots;
      }
    }

    /** Remove queued transactions of one account, one after the other. */
    method RemoveQueued(a: Address, txs: seq<Tx>, ghost rest: Items)
      requires Consistent({}, {}) && NonEmpty(pending) && NonEmpty(queue) && a in queue
      requires TakenOff(queue[a], rest, txs)
      modifies `pending, `queue, `all, `pendingNonce, priced
      ensures Consistent({}, {}) && NonEmpty(pending) && NonEmpty(queue)
      ensures pending == old(pending) && pendingNonce == old(pendingNonce) && all == old(all) - Elems(txs)
      ensures queue == Store(old(queue), a, rest)
    {
      hide Core, PricedOk, NonEmpty, Store, Rest, Elems, KeyedFor, Keyed, TakenOff;
      ghost var p0, pn0, q0, all0 := pending, pendingNonce, queue, all;
      ListKeyed(pending, queue, all, {}, a);
      RestStart(q0, a, all0, txs);
      RestIs(q0[a], rest, txs);
      for i := 0 to |txs|
        invariant Consistent({}, {}) && NonEmpty(pending) && NonEmpty(queue)
        invariant pending == p0 && pendingNonce == pn0 && all == all0 - Elems(txs[..i])
        invariant queue == Store(q0, a, Rest(q0[a], txs[..i]))
      {
        OffListed(q0, a, rest, txs, i);
        ElemsSnoc(txs, i);
        RestStep(q0, a, txs, i);
        AllIsListed(pending, queue, all, txs[i]);
        RemoveTx(txs[i], true, {});
        assert {} - {txs[i]} == {};
        assert all0 - Elems(txs[..i]) - {txs[i]} == all0 - Elems(txs[..i + 1]);
      }
      assert txs[..|txs|] == txs;
    }

    /** If too many transactions are queued, drop whole queues of remote accounts, in some order, and the last
        few of one more: exactly the surplus goes, unless only local queues remain. */
    method TruncateQueue()
      requires Ordered()
      modifies `pending, `queue, `all, `pendingNonce, priced
      ensures Ordered() && pending == old(pending) && pendingNonce == old(pendingNonce)
      ensures QueueCut(old(queue), old(all), locals, {}, queue, all)
      ensures QueueFits(old(queue), old(all), queue, all, locals, config.globalQueue)
      ensures Sum(SizesOf(old(queue))) <= config.globalQueue ==> queue == old(queue) && all == old(all)
      ensures Sum(SizesOf(old(queue))) > config.globalQueue ==>
                Sum(SizesOf(queue)) >= config.globalQueue &&
                (Sum(SizesOf(queue)) == config.globalQueue || forall a :: a in queue ==> a in locals)
    {
      hide Core, PricedOk, NonEmpty, QueueCut, GapFree, Tracks, Store, Sum, Elems, SizesOf, TakenOff, CutAtTop;
      hide Keyed, KeyedFor;
      ghost var p0, pn0, q0, all0 := pending, pendingNonce, queue, all;
      var queued := Count(queue);
      if queued <= config.globalQueue {
        QueueUncut(q0, all0, locals, {});
        return;
      }
      var addresses := set a | a in queue && a !in locals;
      QueueUncut(q0, all0, locals, addresses);
      var drop: nat := queued - config.globalQueue;
      while drop > 0 && addresses != {}
        invariant Consistent({}, {}) && NonEmpty(pending) && NonEmpty(queue) && pending == p0 && pendingNonce == pn0
        invariant QueueCut(q0, all0, locals, addresses, queue, all)
        invariant Sum(SizesOf(queue)) == config.globalQueue + drop
        invariant drop > 0 ==> forall a :: a in addresses <==> a in queue && a !in locals
        decreases addresses
      {
        var a :| a in addresses;
        ghost var q1, all1 := queue, all;
        var list := queue[a];
        var k := if |list| <= drop then |list| else drop;
        ListKeyed(pending, queue, all, {}, a);
        var off, rest := Cap(list, |list| - k);
        CutIsAtTop(list, rest, off);
        QueueCutStep(q0, all0, locals, addresses, q1, all1, a, rest, off);
        SumStore(q1, a, rest);
        StoreKeys(q1, a, rest);
        RemoveQueued(a, off, rest);
        addresses := addresses - {a};
        drop := drop - k;
      }
      QueueCutFewer(q0, all0, locals, addresses, queue, all);
    }

    /** Promote, then apply the two global limits. `kept` is what is known between the limits. */
    method PromoteExecutables(accounts: Option<set<Address>>)
      returns (ghost s: Promotion, ghost kept: set<Tx>, ghost level: nat)
      requires Ordered() && config.accountSlots >= 1
      modifies `pending, `queue, `all, `pendingNonce, priced
      ensures Ordered() && SameTracking(old(pending), old(pendingNonce), pending, pendingNonce, world)
      ensures s.q == old(queue) && s.all == old(all) && Extended(old(pending), s.p') && Core(s.p', s.q', s.all', {})
      ensures GapFree(s.p', world) && NonEmpty(s.q')
      ensures Promoting(s, world, maxGas, locals, config.accountQueue, Chosen(accounts, old(queue)))
      ensures Limited(s, kept, level, locals, config.accountSlots, config.globalSlots, config.globalQueue, pending,
                      queue, all)
      ensures forall a :: a in Chosen(accounts, old(queue)) || a !in old(queue) ==>
                            SettledAt(pending, queue, pendingNonce, world, a)
      ensures LocalsSafe(old(all), all, world, maxGas, locals)
    {
      hide SameTracking, Extended, Ordered, Shortened, Truncated, LocalsSafe, Sum, SizesOf, QueueCut, QueueFits;
      hide Promoting, SettledAt;
      ghost var p0, pn0, q0, all0, w, gas := pending, pendingNonce, queue, all, world, maxGas;
      var chosen := Chosen(accounts, queue);
      PromoteAccounts(chosen);
      s := Promotion(q0, all0, pending, queue, all, pendingNonce);
      ValidMeans();
      PromotionSparesLocals(s, w, gas, locals, config.accountQueue, chosen);
      level := TruncatePending();
      kept := all;
      SameTrackingTwice(p0, pn0, s.p', s.pn', pending, pendingNonce, w);
      TruncationSparesLocals(s.p', s.all', pending, kept, w, gas, locals, config.accountSlots, config.globalSlots,
                             level);
      LocalsSafeTwice(all0, s.all', kept, w, gas, locals);
      TruncateQueue();
      QueueCutSparesLocals(s.q', kept, all, queue, w, gas, locals);
      LocalsSafeTwice(all0, kept, all, w, gas, locals);
      SettledAfterLimits(s, kept, pending, queue, all, pendingNonce, w, gas, locals, config.accountQueue, chosen);
    }

    /** Set the tracked nonce of every account that has executable transactions. */
    method SetNonces()
      requires Consistent({}, {}) && NonEmpty(pending) && GapFree(pending, world)
      modifies `pendingNonce
      ensures NoncesSet(pending, old(pendingNonce), world, {}, pendingNonce)
    {
      hide Core, PricedOk, NonEmpty, GapFree, Sorted, Keyed, KeyedFor, GapFreeFrom, NoncesSet;
      NoncesStart(pending, pendingNonce, world);
      ghost var pn0 := pendingNonce;
      var todo := pending.Keys;
      while todo != {}
        invariant todo <= pending.Keys && NoncesSet(pending, pn0, world, todo, pendingNonce)
      {
        var a :| a in todo;
        ListReady(pending, queue, all, world, a);
        LastNonce(pending[a], NonceOf(world, a));
        var txs := SortByNonce(pending[a]);
        NoncesStep(pending, pn0, world, todo, a, pendingNonce);
        pendingNonce := pendingNonce[a := txs[|txs| - 1].nonce + 1];
        todo := todo - {a};
      }
    }

    /** Move to a new head. The pool is valid on the new state and nothing ready is left queued. The tracked nonces
        are all exact if and only if no remote executable transaction below a newly set minimum price was already
        included. */
    method Reset(newWorld: World, newMaxGas: nat, govPrice: Option<nat>) returns (ghost stages: Stages)
      requires Valid() && config.accountSlots >= 1
      modifies `world, `maxGas, `govGasPrice, `pending, `queue, `all, `pendingNonce, priced
      ensures Valid() && world == newWorld && maxGas == newMaxGas
      ensures govGasPrice == if govPrice.Some? then govPrice.value else old(govGasPrice)
      ensures Staged(stages, old(pending), old(all), world, maxGas, locals, govPrice, config.accountQueue)
      ensures Limited(stages.promotion, stages.kept, stages.level, locals, config.accountSlots, config.globalSlots,
                      config.globalQueue, pending, queue, all)
      ensures forall a :: SettledAt(pending, queue, pendingNonce, world, a)
      ensures UpToDate(pending, pendingNonce, world) <==>
                (govPrice.Some? ==>
                   forall t :: Listed(old(pending), t) && Remote(t, locals) && t.price < govPrice.value ==>
                                 t.nonce >= NonceOf(world, t.from))
      ensures LocalsSafe(old(all), all, world, maxGas, locals)
      ensures govPrice.Some? ==> forall t :: t in all && Remote(t, locals) ==> t.price >= govPrice.value
    {
      hide Core, PricedOk, NonEmpty, GapFree, Tracks, CutDown, Demoting, NoncesSet, UpToDate, SameTracking, Listed;
      hide NonceOf;
      hide DroppedByDemotion, LocalsSafe, Overtaken, CutLists, Promoting, Limited, Extended, SettledAt, Staged, Elems;
      hide NoneHopeless;
      ghost var p0, all0, anchor, w := pending, all, world, newWorld;
      world, maxGas, pendingNonce := newWorld, newMaxGas, map[];
      ghost var drop: seq<Tx> := [];
      if govPrice.Some? {
        govGasPrice := govPrice.value;
        drop := RemoveUnderpriced(govPrice.value);
        ElemsOnlyRemote(all0, all, drop, w, maxGas, locals);
        OvertakenMeans(p0, old(queue), all0, w, govPrice.value, locals, drop);
      } else {
        CutDownStart(p0, pendingNonce, w);
        LocalsSafeNow(all0, w, maxGas, locals);
        NothingOvertaken(p0, w);
        NoElems(all0);
      }
      CutDownGapFree(p0, map[], w, drop, pending, pendingNonce, anchor);
      CutDownLists(p0, map[], w, drop, pending, pendingNonce);
      ghost var p1, pn1, all1 := pending, pendingNonce, all;
      DemoteUnexecutables(anchor);
      DemotionSparesLocals(p1, all1, all, w, maxGas, locals);
      DemotedGapFree(p1, w, maxGas, pending);
      SetNonces();
      UpToDateAfterReset(p0, w, maxGas, drop, p1, pn1, pending, pendingNonce);
      ghost var p2, pn2, all2 := pending, pendingNonce, all;
      ghost var s, kept, level;
      s, kept, level := PromoteExecutables(None);
      stages := Stages(drop, p1, p2, s, kept, level);
      StagedBy(stages, p0, all0, all1, w, maxGas, locals, govPrice, config.accountQueue);
      LimitedFewer(s, kept, level, locals, config.accountSlots, config.globalSlots, config.globalQueue, pending, queue,
                   all);
      PromotedNoneHopeless(p1, p2, s, all, w, maxGas, locals, config.accountQueue);
      UpToDateSame(p2, pn2, pending, pendingNonce, w);
      LocalsSafeTwice(all1, all2, all, w, maxGas, locals);
      LocalsSafeTwice(all0, all1, all, w, maxGas, locals);
      if govPrice.Some? {
        DroppedForPrice(all0, drop, all1, all, w, maxGas, locals, govPrice.value);
      }
    }

    /** What a transaction needs on its own to be accepted. */
    ghost predicate Passes(tx: Tx, local: bool, size: nat)
      reads this
    {
      && size <= 32 * 1024 && CoversIntrinsic(tx, config.homestead) && !Hopeless(tx, world, maxGas)
      && tx.price >= govGasPrice && (local || tx.from in locals || tx.price >= gasPrice)
    }

    /** The checks on a single transaction, and what each error means. */
    method ValidateTx(tx: Tx, local: bool, size: nat) returns (err: Option<PoolError>)
      ensures err.None? <==> Passes(tx, local, size)
      ensures err.None? <==>
                && size <= 32 * 1024 && tx.gas <= maxGas
                && tx.price >= govGasPrice && (local || tx.from in locals || tx.price >= gasPrice)
                && tx.nonce >= NonceOf(world, tx.from)
                && tx.gas * tx.price + tx.value <= BalanceOf(world, tx.from)
                && CoversIntrinsic(tx, config.homestead)
      ensures err != Some(KnownTransaction) && err != Some(ReplaceUnderpriced)
      ensures err == Some(OversizedData) <==> size > 32 * 1024
      ensures err == Some(GasLimit) <==> size <= 32 * 1024 && tx.gas > maxGas
      ensures err == Some(Underpriced) ==>
                tx.price < govGasPrice || (!local && tx.from !in locals && tx.price < gasPrice)
      ensures err == Some(PoolError.NonceTooLow) ==>
                tx.nonce < NonceOf(world, tx.from) && tx.price >= govGasPrice && tx.gas <= maxGas
      ensures err == Some(InsufficientFunds) ==>
                tx.gas * tx.price + tx.value > BalanceOf(world, tx.from) && tx.nonce >= NonceOf(world, tx.from)
      ensures err == Some(PoolError.OutOfGas) <==>
                && IntrinsicGas(tx.data, tx.to.None?, config.homestead).None?
                && size <= 32 * 1024 && !Hopeless(tx, world, maxGas)
                && tx.price >= govGasPrice && (local || tx.from in locals || tx.price >= gasPrice)
      ensures err == Some(IntrinsicTooLow) ==>
                && IntrinsicGas(tx.data, tx.to.None?, config.homestead).Some? && !CoversIntrinsic(tx, config.homestead)
                && !Hopeless(tx, world, maxGas)
    {
      if size > 32 * 1024 {
        return Some(OversizedData);
      }
      if maxGas < tx.gas {
        return Some(GasLimit);
      }
      if govGasPrice > tx.price {
        return Some(Underpriced);
      }
      var isLocal := local || tx.from in locals;
      if !isLocal && gasPrice > tx.price {
        return Some(Underpriced);
      }
      if NonceOf(world, tx.from) > tx.nonce {
        return Some(PoolError.NonceTooLow);
      }
      if BalanceOf(world, tx.from) < Cost(tx) {
        return Some(InsufficientFunds);
      }
      var gas := IntrinsicGas(tx.data, tx.to.None?, config.homestead);
      if gas.None? {
        return Some(PoolError.OutOfGas);
      }
      if tx.gas < gas.value {
        return Some(IntrinsicTooLow);
      }
      return None;
    }

    /** If the pool is full, refuse a transaction no dearer than all others or discard the cheapest remote ones. */
    method MakeRoom(tx: Tx, local: bool) returns (ok: bool, ghost drop: seq<Tx>)
      requires Ordered() && config.globalSlots + config.globalQueue >= 1
      modifies `pending, `queue, `all, `pendingNonce, priced
      ensures Ordered() && SameTracking(old(pending), old(pendingNonce), pending, pendingNonce, world)
      ensures RoomOk(old(all), all, locals, config.globalSlots + config.globalQueue)
      ensures !ok <==> Crowded(old(all), tx, local, locals, config.globalSlots + config.globalQueue)
      ensures all == old(all) - Elems(drop)
      ensures CutDown(old(pending), old(pendingNonce), world, drop, pending, pendingNonce)
      ensures !ok ==> all == old(all) && pending == old(pending) && queue == old(queue)
      ensures !ok ==> !local && tx.from !in locals && forall t :: t in all ==> t.price >= tx.price
      ensures ok && |old(all)| >= config.globalSlots + config.globalQueue ==>
                all != old(all) || forall t :: t in all ==> t.from in locals
      ensures ok ==> || |all| + |Elems(drop)| < config.globalSlots + config.globalQueue + |drop|
                     || forall t :: t in all ==> t.from in locals
    {
      hide Core, PricedOk, NonEmpty, GapFree, Tracks, CutDown, SameTracking, RoomOk;
      ghost var p0, pn0 := pending, pendingNonce;
      var limit := config.globalSlots + config.globalQueue;
      NoChange(p0, pn0, world);
      CutDownStart(p0, pn0, world);
      RoomUntouched(all, locals, limit);
      NoElems(all);
      if |all| < limit {
        return true, [];
      }
      ghost var items, stales := priced.items, priced.stales;
      assert all - {} == all;
      HeapOf(all, items, stales);
      if !local {
        var under := priced.Underpriced(tx, all, locals);
        AfterUnderpriced(all, items, stales, priced.items, priced.stales);
        if under {
          return false, [];
        }
        items, stales := priced.items, priced.stales;
      }
      var txs := priced.Discard(|all| - (limit - 1), all, locals);
      AfterTaken(all, txs, items, stales, priced.items, priced.stales);
      RoomFromDiscard(all, txs, locals, limit);
      DiscardFindsOne(all, txs, locals, |all| - (limit - 1));
      DiscardSuffices(all, txs, locals, limit);
      RemoveAll(txs);
      CutDownKeeps(p0, pn0, world, txs, pending, pendingNonce);
      return true, txs;
    }

    /** Put a dearer transaction in the place of an executable one. */
    method ReplaceExecutable(tx: Tx) returns (inserted: bool)
      requires Ordered() && tx !in all && tx.nonce in Get(pending, tx.from)
      modifies `pending, `all, priced
      ensures Ordered() && inserted == Replaces(Get(old(pending), tx.from), tx, config.priceBump)
      ensures inserted ==> pending == Put(old(pending), tx) && all == old(all) - Occupant(old(pending), tx) + {tx}
      ensures SameTracking(old(pending), pendingNonce, pending, pendingNonce, world)
      ensures !inserted ==> pending == old(pending) && all == old(all)
    {
      hide Core, PricedOk, NonEmpty, GapFree, Tracks, SameTracking, Outbids;
      var list := Get(pending, tx.from);
      NoChange(pending, pendingNonce, world);
      EntersExactlyWhen(list, tx, config.priceBump);
      if !Enters(list, tx, config.priceBump) {
        return false;
      }
      SlotApart(pending, queue, all, tx);
      Supersede(pending, queue, all, {}, tx);
      ReplacementKeeps(pending, pendingNonce, world, tx);
      PutNonEmpty(pending, tx);
      pending := Put(pending, tx);
      ForgetKnown(list[tx.nonce], {});
      MakeKnown(tx, {});
      return true;
    }

    /** File a checked transaction, in the place of an executable or queued one if there is one. */
    method Insert(tx: Tx, local: bool) returns (replaced: bool, err: Option<PoolError>, ghost gone: set<Tx>)
      requires Ordered() && tx !in all
      modifies `pending, `queue, `all, `locals, priced
      ensures Ordered() && SameTracking(old(pending), pendingNonce, pending, pendingNonce, world)
      ensures err == None || err == Some(ReplaceUnderpriced)
      ensures err.Some? ==> all == old(all)
      ensures err.None? ==> all == old(all) - gone + {tx} && forall d :: d in gone ==> GaveWay(d, tx)
      ensures FiledIn(Room([], old(pending), old(queue)), tx, config.priceBump, err.None?, replaced, pending, queue)
      ensures locals == if err.None? && local && tx.nonce !in Get(old(pending), tx.from) then old(locals) + {tx.from}
                        else old(locals)
    {
      hide Core, PricedOk, NonEmpty, GapFree, Tracks, SameTracking, Replaces, GaveWay, Occupant;
      NoChange(pending, pendingNonce, world);
      ghost var p1, q1, all1 := pending, queue, all;
      assert all - {tx} == all && all - {} == all;
      gone := {};
      if tx.nonce in Get(pending, tx.from) {
        var inserted := ReplaceExecutable(tx);
        if !inserted {
          return false, Some(ReplaceUnderpriced), {};
        }
        OccupantGivesWay(p1, q1, all1, tx, config.priceBump);
        return true, None, Occupant(p1, tx);
      }
      var queuedOk;
      PutNonEmpty(queue, tx);
      replaced, queuedOk := EnqueueTx(tx, {}, {});
      if !queuedOk {
        return false, Some(ReplaceUnderpriced), {};
      }
      CoreFlip(p1, q1, all1, {});
      OccupantGivesWay(q1, p1, all1, tx, config.priceBump);
      gone := Occupant(q1, tx);
      if local {
        locals := locals + {tx.from};
      }
      return replaced, None, gone;
    }

    /** Offer a transaction. It takes the place of an executable one, or joins or takes a place in the queue. */
    method Add(tx: Tx, local: bool, size: nat) returns (replaced: bool, err: Option<PoolError>, ghost room: Room)
      requires Valid() && config.globalSlots + config.globalQueue >= 1
      modifies `pending, `queue, `all, `pendingNonce, `locals, priced
      ensures Valid() && SameTracking(old(pending), old(pendingNonce), pending, pendingNonce, world)
      ensures err == Some(KnownTransaction) <==> tx in old(all)
      ensures tx in old(all) || !old(Passes(tx, local, size)) ==> err.Some? && all == old(all)
      ensures var limit := config.globalSlots + config.globalQueue;
              tx !in old(all) ==>
                && Offered(old(all), all, tx, err.None?, old(locals), limit)
                && (old(Passes(tx, local, size)) && Crowded(old(all), tx, local, old(locals), limit) ==>
                    err == Some(Underpriced))
                && (old(Passes(tx, local, size)) && !Crowded(old(all), tx, local, old(locals), limit) ==>
                      && (err.Some? ==> err.value == ReplaceUnderpriced)
                      && CutDown(old(pending), old(pendingNonce), world, room.drop, room.p, pendingNonce)
                      && Core(room.p, room.q, old(all) - Elems(room.drop), {})
                      && FiledIn(room, tx, config.priceBump, err.None?, replaced, pending, queue))
      ensures locals == if err.None? && local && tx.nonce !in Get(room.p, tx.from) then old(locals) + {tx.from}
                        else old(locals)
      ensures tx !in old(all) && old(Passes(tx, local, size)) && (local || tx.from in old(locals)) ==>
                err != Some(Underpriced)
    {
      hide Core, PricedOk, NonEmpty, GapFree, Tracks, SameTracking, RoomOk, Offered, Crowded, FiledIn, CutDown, Elems;
      hide NoneHopeless, Hopeless, CoversIntrinsic;
      var limit := config.globalSlots + config.globalQueue;
      ghost var p0, pn0, all0 := pending, pendingNonce, all;
      room := Room([], pending, queue);
      NoChange(p0, pn0, world);
      RoomUntouched(all, locals, limit);
      if tx in all {
        return false, Some(KnownTransaction), room;
      }
      OfferRefused(all, all, tx, locals, limit);
      err := ValidateTx(tx, local, size);
      if err.Some? {
        return false, err, room;
      }
      var ok;
      ghost var drop;
      ok, drop := MakeRoom(tx, local);
      if !ok {
        return false, Some(Underpriced), room;
      }
      OfferRefused(all0, all, tx, locals, limit);
      OfferKeepsHope(all0, all, tx, false, locals, limit, world, maxGas);
      room := Room(drop, pending, queue);
      ghost var p1, pn1, all1 := pending, pendingNonce, all;
      ghost var gone;
      replaced, err, gone := Insert(tx, local);
      FiledSame(Room([], p1, room.q), room, tx, config.priceBump, err.None?, replaced, pending, queue);
      SameTrackingTwice(p0, pn0, p1, pn1, pending, pendingNonce, world);
      if err.None? {
        OfferTaken(all0, all1, tx, gone, old(locals), limit);
        OfferKeepsHope(all0, all, tx, true, old(locals), limit, world, maxGas);
      }
    }

    /** Offer one transaction and promote what its sender then has ready. `trace` holds the states passed through.
        `Fate` says when a newly filed transaction is gone again. */
    method AddTx(tx: Tx, local: bool, size: nat)
      returns (err: Option<PoolError>, ghost replace: bool, ghost trace: Trace)
      requires Valid() && config.accountSlots >= 1 && config.globalSlots + config.globalQueue >= 1
      modifies `pending, `queue, `all, `pendingNonce, `locals, priced
      ensures Valid() && SameTracking(old(pending), old(pendingNonce), pending, pendingNonce, world)
      ensures err == Some(KnownTransaction) <==> tx in old(all)
      ensures tx in old(all) || !old(Passes(tx, local, size)) ==> err.Some? && trace.s.all == old(all)
      ensures var limit := config.globalSlots + config.globalQueue;
              tx !in old(all) ==>
                && Offered(old(all), trace.s.all, tx, err.None?, old(locals), limit)
                && (old(Passes(tx, local, size)) ==>
                      if Crowded(old(all), tx, local, old(locals), limit) then err == Some(Underpriced)
                      else
                        && (err.Some? ==> err.value == ReplaceUnderpriced)
                        && CutDown(old(pending), old(pendingNonce), world, trace.room.drop, trace.room.p, trace.pn)
                        && Core(trace.room.p, trace.room.q, old(all) - Elems(trace.room.drop), {})
                        && FiledIn(trace.room, tx, config.priceBump, err.None?, replace, trace.p, trace.s.q))
      ensures locals == if err.None? && local && tx.nonce !in Get(trace.room.p, tx.from) then old(locals) + {tx.from}
                        else old(locals)
      ensures tx !in old(all) && old(Passes(tx, local, size)) && (local || tx.from in old(locals)) ==>
                err != Some(Underpriced)
      ensures err.Some? || replace ==>
                all == trace.s.all && pending == trace.p && queue == trace.s.q && pendingNonce == trace.pn
      ensures err.None? && !replace ==>
                && Extended(trace.p, trace.s.p') && Core(trace.s.p', trace.s.q', trace.s.all', {})
                && NonEmpty(trace.s.q')
                && Promoting(trace.s, world, maxGas, locals, config.accountQueue, {tx.from})
                && Limited(trace.s, trace.kept, trace.level, locals, config.accountSlots, config.globalSlots,
                           config.globalQueue, pending, queue, all)
                && SettledAt(pending, queue, pendingNonce, world, tx.from)
                && Fate(trace.s, tx, locals, config.accountQueue, config.globalSlots, config.globalQueue, trace.level,
                        world, queue, all)
      ensures LocalsSafe(trace.s.all, all, world, maxGas, locals)
      ensures err.None? && (replace || tx.from in locals) ==> tx in all
    {
      hide *;
      ghost var p0, pn0 := pending, pendingNonce;
      var replaced;
      ghost var room;
      replaced, err, room := Add(tx, local, size);
      replace := replaced;
      ghost var p1, q1, pn1, all1 := pending, queue, pendingNonce, all;
      trace := Trace(room, p1, pn1, Promotion(q1, all1, p1, q1, all1, pn1), all1, 0);
      LocalsSafeNow(all, world, maxGas, locals);
      ValidMeans();
      OfferTakenIn(old(all), all, tx, err.None?, old(locals), config.globalSlots + config.globalQueue, world, maxGas);
      if err.None? && !replaced {
        ChosenIs({tx.from}, queue);
        ghost var s, kept, level;
        s, kept, level := PromoteExecutables(Some({tx.from}));
        trace := Trace(room, p1, pn1, s, kept, level);
        SameTrackingTwice(p0, pn0, p1, pn1, pending, pendingNonce, world);
        ValidMeans();
        FewerNoneHopeless(all1, all, world, maxGas, locals);
        TakenBackExactly(trace.s, kept, level, locals, config.accountQueue, config.accountSlots, config.globalSlots,
                         config.globalQueue, pending, queue, all, world, maxGas, tx);
      }
    }

    /** Where a transaction is: executable, queued or not in the pool, exactly. */
    method Status(tx: Tx) returns (status: TxStatus)
      requires Ordered()
      ensures status == Pending <==> Listed(pending, tx)
      ensures status == Queued <==> Listed(queue, tx)
      ensures status == Unknown <==> tx !in all
    {
      hide Core, PricedOk, NonEmpty, GapFree, Tracks;
      AllIsListed(pending, queue, all, tx);
      if tx !in all {
        return Unknown;
      }
      if tx.from in pending && tx.nonce in pending[tx.from] {
        return Pending;
      }
      return Queued;
    }

    /** The executable transactions by account, in nonce order and without gaps from the state nonce. */
    method PendingTxs() returns (txs: map<Address, seq<Tx>>)
      requires Valid()
      ensures txs.Keys == pending.Keys
      ensures forall a :: a in txs ==> txs[a] == Sorted(pending[a]) && Continues(txs[a], a, NonceOf(world, a))
      ensures forall a, i :: a in txs && 0 <= i < |txs[a]| ==> !Hopeless(txs[a][i], world, maxGas)
    {
      hide Core, PricedOk, NonEmpty, GapFree, Tracks, Sorted, Continues, NoneHopeless, Hopeless;
      txs := map[];
      var todo := pending.Keys;
      while todo != {}
        invariant todo <= pending.Keys && txs.Keys == pending.Keys - todo
        invariant forall a :: a in txs ==> txs[a] == Sorted(pending[a]) && Continues(txs[a], a, NonceOf(world, a))
        invariant forall a, i :: a in txs && 0 <= i < |txs[a]| ==> !Hopeless(txs[a][i], world, maxGas)
      {
        var a :| a in todo;
        var order := SortByNonce(pending[a]);
        FlatContinues(pending, queue, all, world, a);
        ExecutableNotHopeless(pending, queue, all, world, maxGas, a);
        txs := txs[a := order];
        todo := todo - {a};
      }
    }
  }

  /** Lists that continue the state nonces are what preparing a payload asks for. */
  lemma SuitPayload(txs: map<Address, seq<Tx>>, w: World, maxGas: nat)
    requires forall a :: a in txs ==> Continues(txs[a], a, NonceOf(w, a)) && |txs[a]| < I63
    requires forall a, i :: a in txs && 0 <= i < |txs[a]| ==> !Hopeless(txs[a][i], w, maxGas)
    ensures PayloadBuilder.GapFreeLists(txs)
    ensures maxGas < I63 ==> forall a :: a in txs ==> PayloadBuilder.GasBelowI63(txs[a])
  {
  }

  lemma SameBySize(items: Items, rest: Items, off: seq<Tx>)
    requires TakenOff(items, rest, off)
    ensures |rest| == |items| ==> rest == items
  {
    if |rest| == |items| {
      SameSizeSame(items, rest);
    }
  }

  /** All four limits are positive. */
  predicate Sanitised(config: Config) {
    config.accountSlots >= 1 && config.globalSlots >= 1 && config.accountQueue >= 1 && config.globalQueue >= 1
  }

  lemma NotCrowded(tx: Tx, limit: nat)
    requires limit >= 1
    ensures !Crowded({}, tx, false, {}, limit)
  {
  }

  lemma EmptyMinus(drop: seq<Tx>)
    ensures {} - Elems(drop) == {}
  {
  }

  /** What lies at the next executable nonce is not queued. */
  lemma NotQueued(p: Lists, q: Lists, pn: Nonces, w: World, tx: Tx)
    requires SettledAt(p, q, pn, w, tx.from) && UpToDate(p, pn, w) && tx.nonce == NonceOf(w, tx.from)
    ensures !Listed(q, tx)
  {
    assert UpToDateAt(p, pn, w, tx.from);
  }

  lemma AtTheLastNonce(p: Lists, q: Lists, all: set<Tx>, pn: Nonces, w: World, tx: Tx)
    requires Core(p, q, all, {}) && GapFree(p, w) && UpToDate(p, pn, w)
    requires Listed(p, tx) && tx.nonce == NonceOf(w, tx.from) == MAX_UINT64
    ensures PendingNonce(pn, w, tx.from) == U64
  {
    hide Core;
    ListKeyed(p, q, all, {}, tx.from);
    assert GapFreeAt(p, w, tx.from) && UpToDateAt(p, pn, w, tx.from);
    var items := Get(p, tx.from);
    var last := NonceOf(w, tx.from) + |items| - 1;
    assert items.Keys != {} && |items| == |items.Keys|;
    assert last in items && items[last].nonce == last;
  }

  /** What a transaction needs to be the first of a pool. */
  ghost predicate CanBeFirst(config: Config, world: World, maxGas: nat, gasPrice: nat, tx: Tx) {
    && Sanitised(config) && CoversIntrinsic(tx, config.homestead) && !Hopeless(tx, world, maxGas)
    && tx.price >= gasPrice && tx.nonce == NonceOf(world, tx.from)
  }

  /** Offered to an empty pool at the state nonce, it becomes executable. */
  method FirstOffer(config: Config, world: World, maxGas: nat, gasPrice: nat, tx: Tx) returns (pool: TxPool)
    requires CanBeFirst(config, world, maxGas, gasPrice, tx)
    ensures pool.Valid() && pool.config == config && pool.world == world && pool.locals == {}
    ensures fresh(pool) && fresh(pool.priced)
    ensures Listed(pool.pending, tx) && UpToDate(pool.pending, pool.pendingNonce, world)
  {
    pool := new TxPool(config, world, maxGas, {}, gasPrice, 0);
    assert pool.Passes(tx, false, 0);
    ghost var p0, pn0 := pool.pending, pool.pendingNonce;
    hide *;
    var err;
    ghost var replace, trace;
    err, replace, trace := pool.AddTx(tx, false, 0);
    NotCrowded(tx, config.globalSlots + config.globalQueue);
    EmptyMinus(trace.room.drop);
    FiledInEmpty(trace.room, tx, config.priceBump, err.None?, replace, trace.p, trace.s.q);
    LoneStays(trace.s, trace.kept, trace.level, pool.locals, config.accountQueue, config.accountSlots,
              config.globalSlots, config.globalQueue, pool.pending, pool.queue, pool.all, world, maxGas, tx);
    pool.ValidMeans();
    AllIsListed(pool.pending, pool.queue, pool.all, tx);
    UpToDateSame(p0, pn0, pool.pending, pool.pendingNonce, world);
    NotQueued(pool.pending, pool.queue, pool.pendingNonce, world, tx);
  }

  /** The tracked nonce can be left behind: a transaction becomes executable, is included, and the reset that
      learns of it also raises the price above it. */
  method NonceCanBeLeftBehind(config: Config, world: World, newWorld: World, maxGas: nat, gasPrice: nat, tx: Tx)
    returns (pool: TxPool)
    requires CanBeFirst(config, world, maxGas, gasPrice, tx) && NonceOf(newWorld, tx.from) == tx.nonce + 1
    ensures pool.Valid() && pool.world == newWorld && !UpToDate(pool.pending, pool.pendingNonce, newWorld)
  {
    pool := FirstOffer(config, world, maxGas, gasPrice, tx);
    hide Listed, UpToDate;
    var _ := pool.Reset(newWorld, maxGas, Some(tx.price + 1));
  }

  /** An executable transaction at the last nonce: the tracked nonce no longer fits 64 bits, and in the source it
      is 0. */
  method TrackedNonceCanWrap(config: Config, world: World, maxGas: nat, gasPrice: nat, tx: Tx)
    returns (pool: TxPool)
    requires CanBeFirst(config, world, maxGas, gasPrice, tx) && tx.nonce == MAX_UINT64
    ensures pool.Valid() && PendingNonce(pool.pendingNonce, world, tx.from) == U64
  {
    pool := FirstOffer(config, world, maxGas, gasPrice, tx);
    pool.ValidMeans();
    AtTheLastNonce(pool.pending, pool.queue, pool.all, pool.pendingNonce, world, tx);
  }

  lemma SortedAreListed(p: Lists, q: Lists, all: set<Tx>, txs: map<Address, seq<Tx>>)
    requires Core(p, q, all, {}) && txs.Keys == p.Keys && forall a :: a in txs ==> txs[a] == Sorted(p[a])
    ensures forall a :: a in txs ==> |txs[a]| == |p[a]|
    ensures forall t: Tx :: t.from in txs && t in txs[t.from] ==> Listed(p, t)
  {
    hide Core, Sorted;
    forall a | a in txs
      ensures |txs[a]| == |p[a]| && forall t :: t in txs[a] && t.from == a ==> Listed(p, t)
    {
      ListKeyed(p, q, all, {}, a);
      SortedLength(p[a]);
      SortedIsContents(p[a]);
    }
  }

  lemma OrderOfKeys(order: seq<Address>, p: Lists, txs: map<Address, seq<Tx>>)
    requires PayloadBuilder.Distinct(order) && txs.Keys == p.Keys
    requires forall i :: 0 <= i < |order| ==> order[i] in p
    ensures PayloadBuilder.IsOrder(order, txs)
  {
  }

  /** Proposing from the pool: whatever order the accounts come in and whenever time runs out, the payload holds
      executable transactions only, and it is accepted if the pool's gas limit is below 2^63. */
  method ProposeFromPool(app: DexconApplication.DexconApp, pool: TxPool, height: nat, round: nat, order: seq<Address>,
                         deadline: nat)
    returns (r: DexconApplication.Prepared)
    requires pool.Valid() && forall a :: a in pool.pending ==> |pool.pending[a]| < I63
    requires app.Valid() && Sequencing.Executable(Dexcon.Head(app.ViewOf()), Dexcon.Flat(app.queue))
    requires PayloadBuilder.Distinct(order) && forall i :: 0 <= i < |order| ==> order[i] in pool.pending
    ensures r.Prepared? && r.payload.Txs? ==>
              && Sequencing.Extends(Dexcon.Head(app.ViewOf()), Dexcon.Flat(app.queue), r.payload.txs)
              && (forall t :: t in r.payload.txs ==> Listed(pool.pending, t))
              && (pool.maxGas < I63 ==> Dexcon.Acceptable(app.node, app.ViewOf(), round, r.payload.txs))
  {
    hide *;
    var pending := pool.PendingTxs();
    pool.ValidMeans();
    SortedAreListed(pool.pending, pool.queue, pool.all, pending);
    OrderOfKeys(order, pool.pending, pending);
    SuitPayload(pending, pool.world, pool.maxGas);
    r := app.PreparePayload(height, round, pending, order, deadline);
  }

  /** The accounts to promote: those given, or all with a queue. */
  function Chosen(accounts: Option<set<Address>>, q: Lists): set<Address> {
    if accounts.Some? then accounts.value else q.Keys
  }

  lemma ChosenIs(accounts: set<Address>, q: Lists)
    ensures Chosen(Some(accounts), q) == accounts
  {
  }

  lemma HeapOf(known: set<Tx>, items: seq<Tx>, stales: int)
    requires PricedOk(known, items, stales)
    ensures Heap.IsHeap(PriceLess, items) && Backed(known, items)
  {
  }
}
