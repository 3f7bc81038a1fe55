/** An account's transaction list (txList in core/tx_list.go): a sorted map plus upper bounds on cost and
    gas that let Filter return early. Strict lists are gap-free, the others may have gaps. */
module TxList {
  import opened Types
  import opened SortedMap

  /** `tx` pays more than `was`, and more by at least `priceBump` percent, rounded down to a whole price. */
  predicate Outbids(was: Tx, tx: Tx, priceBump: nat) {
    tx.price > was.price && 100 * (tx.price + 1) > was.price * (100 + priceBump)
  }

  /** Whether `tx` is to enter: nothing at its nonce yet, or it outbids what is there. */
  predicate Replaces(items: Items, tx: Tx, priceBump: nat) {
    tx.nonce in items ==> Outbids(items[tx.nonce], tx, priceBump)
  }

  /** The threshold as the source computes it, with integer division. */
  function BumpedPrice(was: Tx, priceBump: nat): nat {
    was.price * (100 + priceBump) / 100
  }

  /** The test of the source on what is at the nonce. */
  predicate Enters(items: Items, tx: Tx, priceBump: nat) {
    tx.nonce in items ==>
      var was := items[tx.nonce];
      !(was.price >= tx.price || BumpedPrice(was, priceBump) > tx.price)
  }

  /** The test admits exactly what outbids. */
  lemma EntersExactlyWhen(items: Items, tx: Tx, priceBump: nat)
    ensures Enters(items, tx, priceBump) <==> Replaces(items, tx, priceBump)
  {
    if tx.nonce in items {
      var scaled := items[tx.nonce].price * (100 + priceBump);
      assert scaled == 100 * (scaled / 100) + scaled % 100;
    }
  }

  predicate Unpayable(t: Tx, costLimit: nat, gasLimit: nat) {
    Cost(t) > costLimit || t.gas > gasLimit
  }

  /** The two filter predicates. */
  function UnpayableAt(costLimit: nat, gasLimit: nat): Tx -> bool {
    (t: Tx) => Unpayable(t, costLimit, gasLimit)
  }

  function Above(nonce: nat): Tx -> bool {
    (t: Tx) => t.nonce > nonce
  }

  /** `n` is the lowest nonce of an unpayable transaction. */
  ghost predicate LowestUnpayable(items: Items, costLimit: nat, gasLimit: nat, n: nat) {
    n in items && Unpayable(items[n], costLimit, gasLimit) &&
    forall m :: m in items && Unpayable(items[m], costLimit, gasLimit) ==> n <= m
  }

  /** The caps bound everything in the list. */
  ghost predicate Bounded(items: Items, costcap: nat, gascap: nat) {
    forall n :: n in items ==> Cost(items[n]) <= costcap && items[n].gas <= gascap
  }

  /** No gaps: consecutive nonces from `start` on. */
  ghost predicate GapFreeFrom(items: Items, start: nat) {
    forall n :: n in items <==> start <= n < start + |items|
  }

  /** With the caps in place the early exit is right: there is nothing to filter. */
  lemma EarlyExitIsFullScan(items: Items, costcap: nat, gascap: nat, costLimit: nat, gasLimit: nat)
    requires Bounded(items, costcap, gascap) && costcap <= costLimit && gascap <= gasLimit
    ensures forall n :: n in items ==> !Unpayable(items[n], costLimit, gasLimit)
    ensures Kept(items, UnpayableAt(costLimit, gasLimit)) == items
  {
  }

  /** The lowest nonce among some transactions, as the strict branch of Filter computes it. */
  method LowestNonce(txs: seq<Tx>) returns (lowest: nat)
    requires txs != []
    ensures exists i :: 0 <= i < |txs| && txs[i].nonce == lowest
    ensures forall i :: 0 <= i < |txs| ==> lowest <= txs[i].nonce
  {
    lowest := MAX_UINT64;
    for k := 0 to |txs|
      invariant forall i :: 0 <= i < k ==> lowest <= txs[i].nonce
      invariant lowest == MAX_UINT64 || exists i :: 0 <= i < k && txs[i].nonce == lowest
    {
      if lowest > txs[k].nonce {
        lowest := txs[k].nonce;
      }
    }
    if lowest == MAX_UINT64 {
      assert txs[0].nonce == lowest;
    }
  }

  /** After a strict filter exactly the nonces below the lowest unpayable one are left. */
  lemma StrictFilterLeaves(items: Items, costLimit: nat, gasLimit: nat, removed: seq<Tx>, lowest: nat, rest: Items)
    requires Keyed(items)
    requires Dropped(items, items.Keys, UnpayableAt(costLimit, gasLimit), removed) && removed != []
    requires exists i :: 0 <= i < |removed| && removed[i].nonce == lowest
    requires forall i :: 0 <= i < |removed| ==> lowest <= removed[i].nonce
    requires rest == Kept(Kept(items, UnpayableAt(costLimit, gasLimit)), Above(lowest))
    ensures LowestUnpayable(items, costLimit, gasLimit, lowest)
    ensures rest == map n | n in items && n < lowest :: items[n]
  {
    var drop := UnpayableAt(costLimit, gasLimit);
    var i :| 0 <= i < |removed| && removed[i].nonce == lowest;
    assert DroppedAt(items, items.Keys, drop, removed[i]);
    forall m | m in items && Unpayable(items[m], costLimit, gasLimit)
      ensures lowest <= m
    {
      assert drop(items[m]);
      var j :| 0 <= j < |removed| && removed[j] == items[m];
    }
    forall n | n in items
      ensures n in rest <==> n < lowest
    {
    }
  }

  /** In a strict list what is removed and what is invalidated are together exactly everything from the lowest
      unpayable nonce up, each once. */
  lemma StrictSplit(items: Items, costLimit: nat, gasLimit: nat, removed: seq<Tx>, lowest: nat, invalids: seq<Tx>,
                    t: Tx)
    requires Keyed(items) && LowestUnpayable(items, costLimit, gasLimit, lowest)
    requires Dropped(items, items.Keys, UnpayableAt(costLimit, gasLimit), removed)
    requires Dropped(Kept(items, UnpayableAt(costLimit, gasLimit)), Kept(items, UnpayableAt(costLimit, gasLimit)).Keys,
                     Above(lowest), invalids)
    ensures t in removed || t in invalids <==> t.nonce in items && items[t.nonce] == t && t.nonce >= lowest
    ensures !(t in removed && t in invalids)
  {
    var drop := UnpayableAt(costLimit, gasLimit);
    var kept := Kept(items, drop);
    DroppedIff(items, drop, removed, t);
    DroppedIff(kept, Above(lowest), invalids, t);
  }

  lemma DroppedIff(items: Items, drop: Tx -> bool, removed: seq<Tx>, t: Tx)
    requires Keyed(items) && Dropped(items, items.Keys, drop, removed)
    ensures t in removed <==> t.nonce in items && items[t.nonce] == t && drop(t)
  {
    if t in removed {
      var i :| 0 <= i < |removed| && removed[i] == t;
      assert DroppedAt(items, items.Keys, drop, removed[i]);
    }
  }

  /** A gap-free list cut off at a nonce is gap-free. */
  lemma CutStaysGapFree(items: Items, start: nat, cut: nat, rest: Items)
    requires GapFreeFrom(items, start)
    requires PartOf(rest, items) && forall n :: n in items ==> (n in rest <==> n < cut)
    ensures GapFreeFrom(rest, start)
  {
    var len := if cut <= start then 0 else if cut >= start + |items| then |items| else cut - start;
    RangeSize(start, len);
    assert rest.Keys == Range(start, len);
    assert |rest| == |rest.Keys|;
  }

  ghost function Range(start: nat, len: nat): set<nat> {
    if len == 0 then {} else Range(start, len - 1) + {start + len - 1}
  }

  lemma {:induction false} RangeSize(start: nat, len: nat)
    ensures |Range(start, len)| == len && forall n :: n in Range(start, len) <==> start <= n < start + len
  {
    if len > 0 {
      RangeSize(start, len - 1);
    }
  }

  class TxList {
    const strict: bool
    const txs: TxSortedMap
    var costcap: nat
    var gascap: nat

    constructor (strict: bool)
      ensures Valid() && this.strict == strict && txs.items == map[] && fresh(txs)
    {
      this.strict := strict;
      txs := new TxSortedMap();
      costcap, gascap := 0, 0;
    }

    ghost predicate Valid()
      reads this, txs
    {
      txs.Valid() && Bounded(txs.items, costcap, gascap)
    }

    /** Adds the transaction unless a better one is at its nonce; returns what it replaced. */
    method Add(tx: Tx, priceBump: nat) returns (inserted: bool, replaced: Option<Tx>)
      requires Valid()
      modifies this, txs
      ensures Valid()
      ensures inserted <==>
                (tx.nonce in old(txs.items) ==>
                   var was := old(txs.items)[tx.nonce];
                   tx.price > was.price && 100 * (tx.price + 1) > was.price * (100 + priceBump))
      ensures inserted ==> txs.items == old(txs.items)[tx.nonce := tx]
      ensures !inserted ==> txs.items == old(txs.items) && replaced == None
      ensures inserted ==> replaced == if tx.nonce in old(txs.items) then Some(old(txs.items)[tx.nonce]) else None
    {
      EntersExactlyWhen(txs.items, tx, priceBump);
      replaced := None;
      if tx.nonce in txs.items {
        var was := txs.items[tx.nonce];
        var threshold := BumpedPrice(was, priceBump);
        if was.price >= tx.price || threshold > tx.price {
          return false, None;
        }
        replaced := Some(was);
      }
      txs.Put(tx);
      if costcap < Cost(tx) {
        costcap := Cost(tx);
      }
      if gascap < tx.gas {
        gascap := tx.gas;
      }
      return true, replaced;
    }

    method Forward(threshold: nat) returns (removed: seq<Tx>)
      requires Valid()
      modifies txs
      ensures Valid() && PartOf(txs.items, old(txs.items))
      ensures forall n :: n in txs.items <==> n in old(txs.items) && n >= threshold
      ensures Sorted(old(txs.items)) == removed + Sorted(txs.items)
      ensures forall i :: 0 <= i < |removed| ==> removed[i].nonce < threshold
    {
      removed := txs.Forward(threshold);
    }

    /** Removes exactly the unpayable transactions, whether or not it exits early. A strict list also gives
        up everything above the lowest of them, so that what remains is what lies below it. */
    method Filter(costLimit: nat, gasLimit: nat) returns (removed: seq<Tx>, invalids: seq<Tx>)
      requires Valid()
      modifies this, txs
      ensures Valid()
      ensures Dropped(old(txs.items), old(txs.items).Keys, UnpayableAt(costLimit, gasLimit), removed)
      ensures !strict || removed == [] ==>
                txs.items == Kept(old(txs.items), UnpayableAt(costLimit, gasLimit)) && invalids == []
      ensures strict && removed != [] ==>
                exists lowest: nat ::
                  && LowestUnpayable(old(txs.items), costLimit, gasLimit, lowest)
                  && txs.items == (map n | n in old(txs.items) && n < lowest :: old(txs.items)[n])
                  && Dropped(Kept(old(txs.items), UnpayableAt(costLimit, gasLimit)),
                             Kept(old(txs.items), UnpayableAt(costLimit, gasLimit)).Keys,
                             Above(lowest), invalids)
    {
      ghost var items0 := txs.items;
      if costcap <= costLimit && gascap <= gasLimit {
        EarlyExitIsFullScan(txs.items, costcap, gascap, costLimit, gasLimit);
        return [], [];
      }
      costcap, gascap := costLimit, gasLimit;
      removed := txs.Filter(UnpayableAt(costLimit, gasLimit));
      invalids := [];
      if strict && |removed| > 0 {
        var lowest := LowestNonce(removed);
        invalids := txs.Filter(Above(lowest));
        StrictFilterLeaves(items0, costLimit, gasLimit, removed, lowest, txs.items);
      }
    }

    method Cap(threshold: nat) returns (drops: seq<Tx>)
      requires Valid()
      modifies txs
      ensures Valid() && Capped(old(txs.items), txs.items, drops)
      ensures |txs.items| == if |old(txs.items)| <= threshold then |old(txs.items)| else threshold
      ensures |drops| == |old(txs.items)| - |txs.items|
    {
      drops := txs.Cap(threshold);
    }

    /** Removes what is stored at the transaction's nonce; a strict list also gives up everything above. */
    method Remove(tx: Tx) returns (found: bool, invalids: seq<Tx>)
      requires Valid()
      modifies txs
      ensures Valid() && found == (tx.nonce in old(txs.items))
      ensures !found ==> txs.items == old(txs.items) && invalids == []
      ensures found && !strict ==> txs.items == old(txs.items) - {tx.nonce} && invalids == []
      ensures found && strict ==>
                && txs.items == Kept(old(txs.items) - {tx.nonce}, Above(tx.nonce))
                && Dropped(old(txs.items) - {tx.nonce}, (old(txs.items) - {tx.nonce}).Keys, Above(tx.nonce), invalids)
    {
      var nonce := tx.nonce;
      found := txs.Remove(nonce);
      invalids := [];
      if found && strict {
        invalids := txs.Filter(Above(nonce));
      }
    }

    method Ready(start: nat) returns (ready: seq<Tx>)
      requires Valid()
      modifies txs
      ensures Valid() && Sorted(old(txs.items)) == ready + Sorted(txs.items) && PartOf(txs.items, old(txs.items))
      ensures ready == [] <==> forall n :: n in old(txs.items) ==> n > start
      ensures ready == [] ==> txs.items == old(txs.items)
      ensures ready != [] ==>
                var first := ready[0].nonce;
                && first <= start && (forall n :: n in old(txs.items) ==> first <= n)
                && RunFrom(old(txs.items), first, ready) && first + |ready| !in old(txs.items)
                && forall n :: n in txs.items <==> n in old(txs.items) && n >= first + |ready|
    {
      ready := txs.Ready(start);
    }
  }
}
