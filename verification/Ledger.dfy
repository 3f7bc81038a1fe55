/** What the application's address maps must hold, recomputed from the confirmed blocks, and how
    the checks of validateNonce and VerifyBlock relate to executability (dex/app.go). */
module Ledger {
  import opened Types
  import opened Gas
  import opened Processor
  import opened Sequencing
  import opened Dexcon

  /** Number of confirmed blocks naming an address. */
  function Naming(queue: seq<Block>, a: Address): nat {
    if queue == [] then 0
    else (if Count(TxsOf(queue[0]), a) > 0 then 1 else 0) + Naming(queue[1..], a)
  }

  lemma {:induction false} NamingSnoc(queue: seq<Block>, b: Block, a: Address)
    ensures Naming(queue + [b], a) == Naming(queue, a) + if Count(TxsOf(b), a) > 0 then 1 else 0
  {
    if queue == [] {
      assert queue + [b] == [b];
      assert Naming([b][1..], a) == 0;
    } else {
      assert (queue + [b])[1..] == queue[1..] + [b];
      NamingSnoc(queue[1..], b, a);
    }
  }

  lemma {:induction false} NamingIsCount(queue: seq<Block>, a: Address)
    ensures Naming(queue, a) > 0 <==> Count(Flat(queue), a) > 0
  {
    if queue != [] {
      Concat(TxsOf(queue[0]), Flat(queue[1..]), a);
      NamingIsCount(queue[1..], a);
    }
  }

  /** The nonce and cost maps recomputed from the undelivered transactions: one domain, the
      senders; cost is the summed cost, nonce the last nonce. */
  ghost predicate CostsMatch(nonces: map<Address, uint64>, costs: map<Address, nat>, txs: seq<Tx>) {
    forall a :: CostsMatchAt(nonces, costs, txs, a)
  }

  ghost predicate CostsMatchAt(nonces: map<Address, uint64>, costs: map<Address, nat>, txs: seq<Tx>, a: Address) {
    && (a in nonces <==> Count(txs, a) > 0)
    && (a in costs <==> Count(txs, a) > 0)
    && (Count(txs, a) > 0 ==> nonces[a] == LastNonce(txs, a) && costs[a] == Spend(txs, a))
  }

  /** The counter map recomputed from the confirmed blocks. */
  ghost predicate CountersMatch(counters: map<Address, nat>, queue: seq<Block>) {
    forall a :: CountersMatchAt(counters, queue, a)
  }

  ghost predicate CountersMatchAt(counters: map<Address, nat>, queue: seq<Block>, a: Address) {
    && (a in counters <==> Naming(queue, a) > 0)
    && (a in counters ==> counters[a] == Naming(queue, a))
  }

  datatype BlockInfo = BlockInfo(addresses: map<Address, nat>, block: Block, txs: seq<Tx>)

  /** What each sender of a block pays at most. */
  ghost predicate AddressCosts(m: map<Address, nat>, txs: seq<Tx>) {
    forall a :: AddressCostsAt(m, txs, a)
  }

  ghost predicate AddressCostsAt(m: map<Address, nat>, txs: seq<Tx>, a: Address) {
    && (a in m <==> Count(txs, a) > 0)
    && (a in m ==> m[a] == Spend(txs, a))
  }

  lemma AddressCostsSnoc(m: map<Address, nat>, txs: seq<Tx>, t: Tx)
    requires AddressCosts(m, txs)
    ensures AddressCosts(m[t.from := (if t.from in m then m[t.from] else 0) + Cost(t)], txs + [t])
  {
    var m' := m[t.from := (if t.from in m then m[t.from] else 0) + Cost(t)];
    forall a
      ensures AddressCostsAt(m', txs + [t], a)
    {
      Snoc(txs, t, a);
      NoCountNoSpend(txs, a);
      assert AddressCostsAt(m, txs, a);
    }
  }

  ghost predicate InfoOf(info: BlockInfo, b: Block) {
    info.block == b && info.txs == TxsOf(b) && AddressCosts(info.addresses, TxsOf(b))
  }

  ghost predicate BlocksMatch(confirmed: map<Hash, BlockInfo>, queue: seq<Block>) {
    && (forall i :: 0 <= i < |queue| ==> queue[i].hash in confirmed && InfoOf(confirmed[queue[i].hash], queue[i]))
    && (forall h :: h in confirmed ==> exists i :: 0 <= i < |queue| && queue[i].hash == h)
    && (forall i, j :: 0 <= i < j < |queue| ==> queue[i].hash != queue[j].hash)
  }

  /** Recording one more transaction keeps the cost and nonce maps in step. */
  lemma CostsMatchSnoc(nonces: map<Address, uint64>, costs: map<Address, nat>, txs: seq<Tx>, t: Tx)
    requires CostsMatch(nonces, costs, txs)
    ensures CostsMatch(nonces[t.from := t.nonce],
                       costs[t.from := (if t.from in costs then costs[t.from] else 0) + Cost(t)], txs + [t])
  {
    var nonces' := nonces[t.from := t.nonce];
    var costs' := costs[t.from := (if t.from in costs then costs[t.from] else 0) + Cost(t)];
    forall a
      ensures CostsMatchAt(nonces', costs', txs + [t], a)
    {
      Snoc(txs, t, a);
      NoCountNoSpend(txs, a);
      assert CostsMatchAt(nonces, costs, txs, a);
    }
  }

  lemma {:induction false} NoCountNoSpend(txs: seq<Tx>, a: Address)
    ensures Count(txs, a) == 0 ==> Spend(txs, a) == 0
  {
    if txs != [] {
      NoCountNoSpend(txs[..|txs| - 1], a);
    }
  }

  /******* validateNonce against the position-wise reference *******/

  /** Each sender's nonces are consecutive within the block. */
  ghost predicate Chained(txs: seq<Tx>) {
    forall i :: 0 <= i < |txs| ==> ChainedAt(txs[..i], txs[i])
  }

  ghost predicate ChainedAt(before: seq<Tx>, t: Tx) {
    Count(before, t.from) > 0 ==> t.nonce == Inc(LastNonce(before, t.from))
  }

  /** The first nonce of every sender of the block. */
  ghost predicate FirstNonces(m: map<Address, uint64>, txs: seq<Tx>) {
    && (forall a :: a in m <==> Count(txs, a) > 0)
    && (forall i :: 0 <= i < |txs| && Count(txs[..i], txs[i].from) == 0 ==>
          txs[i].from in m && m[txs[i].from] == txs[i].nonce)
  }

  lemma FirstNoncesSnoc(m: map<Address, uint64>, txs: seq<Tx>, t: Tx)
    requires FirstNonces(m, txs)
    ensures FirstNonces(if t.from in m then m else m[t.from := t.nonce], txs + [t])
  {
    var m' := if t.from in m then m else m[t.from := t.nonce];
    var all := txs + [t];
    forall a
      ensures a in m' <==> Count(all, a) > 0
    {
      Snoc(txs, t, a);
    }
    forall i | 0 <= i < |all| && Count(all[..i], all[i].from) == 0
      ensures all[i].from in m' && m'[all[i].from] == all[i].nonce
    {
      if i < |txs| {
        assert all[..i] == txs[..i] && all[i] == txs[i];
      } else {
        assert all[..i] == txs;
      }
    }
  }

  ghost predicate LastNonces(m: map<Address, uint64>, txs: seq<Tx>) {
    forall a :: LastNoncesAt(m, txs, a)
  }

  ghost predicate LastNoncesAt(m: map<Address, uint64>, txs: seq<Tx>, a: Address) {
    Count(txs, a) > 0 ==> a in m && m[a] == LastNonce(txs, a)
  }

  lemma LastNoncesSnoc(m: map<Address, uint64>, txs: seq<Tx>, t: Tx)
    requires LastNonces(m, txs)
    ensures LastNonces(m[t.from := t.nonce], txs + [t])
  {
    var m', all := m[t.from := t.nonce], txs + [t];
    forall a
      ensures LastNoncesAt(m', all, a)
    {
      Snoc(txs, t, a);
      assert LastNoncesAt(m, txs, a);
    }
  }

  lemma NoncesNil()
    ensures FirstNonces(map[], []) && LastNonces(map[], [])
  {
  }

  /** One iteration of validateNonce. */
  lemma NoncesSnoc(first: map<Address, uint64>, last: map<Address, uint64>, txs: seq<Tx>, t: Tx)
    requires FirstNonces(first, txs) && LastNonces(last, txs)
    ensures FirstNonces(if t.from in first then first else first[t.from := t.nonce], txs + [t])
    ensures LastNonces(last[t.from := t.nonce], txs + [t])
    ensures t.from in first ==> t.from in last && (ChainedAt(txs, t) <==> Inc(last[t.from]) == t.nonce)
    ensures t.from !in first ==> ChainedAt(txs, t)
  {
    FirstNoncesSnoc(first, txs, t);
    LastNoncesSnoc(last, txs, t);
    assert LastNoncesAt(last, txs, t.from);
  }

  /** The nonces of `txs` continue those of `before` from world `w`. */
  ghost predicate NoncesContinue(w: World, before: seq<Tx>, txs: seq<Tx>) {
    forall i :: 0 <= i < |txs| ==> txs[i].nonce == NextNonce(w, before + txs[..i], txs[i].from)
  }

  lemma PrefixOf(txs: seq<Tx>, n: nat)
    requires n < |txs|
    ensures txs[..n + 1] == txs[..n] + [txs[n]]
    ensures forall i :: 0 <= i < n ==> txs[..n][i] == txs[i] && txs[..n][..i] == txs[..i]
  {
  }

  ghost predicate LastBefore(w: World, before: seq<Tx>, txs: seq<Tx>, a: Address) {
    && (Count(txs, a) > 0 ==> Inc(LastNonce(txs, a)) == NextNonce(w, before + txs, a))
    && (Count(txs, a) == 0 ==> NextNonce(w, before + txs, a) == NextNonce(w, before, a))
  }

  lemma LastBeforeSnoc(w: World, before: seq<Tx>, txs: seq<Tx>, t: Tx, a: Address)
    requires LastBefore(w, before, txs, a) && t.nonce == NextNonce(w, before + txs, t.from)
    ensures LastBefore(w, before, txs + [t], a)
  {
    hide Count, LastNonce, Advance, Inc, Spend;
    Snoc(txs, t, a);
    assert before + (txs + [t]) == (before + txs) + [t];
    AdvanceSnoc(NonceOf(w, a), before + txs, t, a);
  }

  /** If the first `n` nonces continue, the last nonce so far is the one before the next. */
  lemma {:induction false} ContinuedLast(w: World, before: seq<Tx>, txs: seq<Tx>, n: nat, a: Address)
    requires n <= |txs|
    requires forall i :: 0 <= i < n ==> txs[i].nonce == NextNonce(w, before + txs[..i], txs[i].from)
    ensures LastBefore(w, before, txs[..n], a)
  {
    if n == 0 {
      assert txs[..0] == [] && before + txs[..0] == before;
    } else {
      hide LastBefore, NextNonce;
      ContinuedLast(w, before, txs, n - 1, a);
      LastBeforeSnoc(w, before, txs[..n - 1], txs[n - 1], a);
      assert txs[..n] == txs[..n - 1] + [txs[n - 1]];
    }
  }

  /** Chained nonces whose first ones are expected are exactly nonces that continue. */
  lemma ChainedFromExpected(w: World, before: seq<Tx>, txs: seq<Tx>, first: map<Address, uint64>)
    requires FirstNonces(first, txs)
    ensures NoncesContinue(w, before, txs) <==>
            Chained(txs) && forall a :: a in first ==> first[a] == NextNonce(w, before, a)
  {
    if NoncesContinue(w, before, txs) {
      forall i | 0 <= i < |txs|
        ensures ChainedAt(txs[..i], txs[i])
      {
        ContinuedLast(w, before, txs, i, txs[i].from);
      }
      forall a | a in first
        ensures first[a] == NextNonce(w, before, a)
      {
        var i := FirstOf(txs, a);
        ContinuedLast(w, before, txs, i, a);
      }
    }
    if Chained(txs) && forall a :: a in first ==> first[a] == NextNonce(w, before, a) {
      ChainedContinue(w, before, txs, first, |txs|);
    }
  }

  /** The position of a sender's first transaction. */
  lemma {:induction false} FirstOf(txs: seq<Tx>, a: Address) returns (i: nat)
    requires Count(txs, a) > 0
    ensures i < |txs| && txs[i].from == a && Count(txs[..i], a) == 0
  {
    var n := |txs| - 1;
    if Count(txs[..n], a) == 0 {
      i := n;
    } else {
      i := FirstOf(txs[..n], a);
      assert txs[..n][..i] == txs[..i];
    }
  }

  lemma {:induction false} ChainedContinue(w: World, before: seq<Tx>, txs: seq<Tx>, first: map<Address, uint64>, n: nat)
    requires FirstNonces(first, txs) && Chained(txs) && n <= |txs|
    requires forall a :: a in first ==> first[a] == NextNonce(w, before, a)
    ensures forall i :: 0 <= i < n ==> txs[i].nonce == NextNonce(w, before + txs[..i], txs[i].from)
  {
    hide Advance, Inc;
    if n > 0 {
      ChainedContinue(w, before, txs, first, n - 1);
      ContinuedLast(w, before, txs, n - 1, txs[n - 1].from);
      assert ChainedAt(txs[..n - 1], txs[n - 1]);
    }
  }

  /******* The balance loop against the reference *******/

  /** The checks of VerifyBlock's last loop on one transaction. */
  ghost predicate AffordableAt(w: World, before: seq<Tx>, t: Tx) {
    CoversIntrinsic(t, true) && Spend(before, t.from) + Cost(t) <= BalanceOf(w, t.from)
  }

  ghost predicate Affordable(w: World, before: seq<Tx>, txs: seq<Tx>, n: nat)
    requires n <= |txs|
  {
    forall i :: 0 <= i < n ==> AffordableAt(w, before + txs[..i], txs[i])
  }

  lemma AffordableSnoc(w: World, before: seq<Tx>, txs: seq<Tx>, i: nat)
    requires i < |txs| && Affordable(w, before, txs, i) && AffordableAt(w, before + txs[..i], txs[i])
    ensures Affordable(w, before, txs, i + 1)
  {
  }

  lemma ExtendsSplits(w: World, before: seq<Tx>, txs: seq<Tx>)
    ensures Extends(w, before, txs) <==> NoncesContinue(w, before, txs) && Affordable(w, before, txs, |txs|)
  {
    if Extends(w, before, txs) {
      forall i | 0 <= i < |txs|
        ensures Fits(w, before + txs[..i], txs[i])
      {
      }
    }
  }

  /******* Removing the oldest block *******/

  /** How the recomputed ledger of one address changes when the oldest block goes. */
  lemma DropFront(queue: seq<Block>, a: Address)
    requires queue != []
    ensures var front, all, rest := TxsOf(queue[0]), Flat(queue), Flat(queue[1..]);
            && Count(all, a) == Count(front, a) + Count(rest, a)
            && Spend(all, a) == Spend(front, a) + Spend(rest, a)
            && (Count(rest, a) > 0 ==> LastNonce(all, a) == LastNonce(rest, a))
            && Naming(queue, a) == Naming(queue[1..], a) + (if Count(front, a) > 0 then 1 else 0)
            && (Naming(queue[1..], a) > 0 <==> Count(rest, a) > 0)
  {
    Concat(TxsOf(queue[0]), Flat(queue[1..]), a);
    NamingIsCount(queue[1..], a);
  }

  /** An address not named by the oldest block keeps its entries. */
  lemma UnnamedKeeps(nonces: map<Address, uint64>, costs: map<Address, nat>, counters: map<Address, nat>,
                     queue: seq<Block>, a: Address)
    requires queue != [] && Count(TxsOf(queue[0]), a) == 0
    requires CostsMatchAt(nonces, costs, Flat(queue), a) && CountersMatchAt(counters, queue, a)
    ensures CostsMatchAt(nonces, costs, Flat(queue[1..]), a) && CountersMatchAt(counters, queue[1..], a)
  {
    DropFront(queue, a);
    NoCountNoSpend(TxsOf(queue[0]), a);
  }

  lemma BlocksMatchDrop(confirmed: map<Hash, BlockInfo>, queue: seq<Block>)
    requires BlocksMatch(confirmed, queue) && queue != []
    ensures BlocksMatch(confirmed - {queue[0].hash}, queue[1..])
  {
    var confirmed', queue' := confirmed - {queue[0].hash}, queue[1..];
    forall i | 0 <= i < |queue'|
      ensures queue'[i].hash in confirmed' && InfoOf(confirmed'[queue'[i].hash], queue'[i])
    {
      assert queue'[i] == queue[i + 1];
    }
    forall h | h in confirmed'
      ensures exists i :: 0 <= i < |queue'| && queue'[i].hash == h
    {
      var i :| 0 <= i < |queue| && queue[i].hash == h;
      assert queue'[i - 1].hash == h;
    }
  }

  lemma BlocksMatchSnoc(confirmed: map<Hash, BlockInfo>, queue: seq<Block>, b: Block, info: BlockInfo)
    requires BlocksMatch(confirmed, queue) && b.hash !in confirmed && InfoOf(info, b)
    ensures BlocksMatch(confirmed[b.hash := info], queue + [b])
  {
    var confirmed', queue' := confirmed[b.hash := info], queue + [b];
    forall h | h in confirmed'
      ensures exists i :: 0 <= i < |queue'| && queue'[i].hash == h
    {
      if h == b.hash {
        assert queue'[|queue|].hash == h;
      } else {
        var i :| 0 <= i < |queue| && queue[i].hash == h;
        assert queue'[i].hash == h;
      }
    }
  }

  lemma {:induction false} NoCountNoAdvance(n: uint64, txs: seq<Tx>, a: Address)
    ensures Count(txs, a) == 0 ==> Advance(n, txs, a) == n
  {
    if txs != [] {
      NoCountNoAdvance(n, txs[..|txs| - 1], a);
    }
  }

  lemma SenderCounted(txs: seq<Tx>, i: nat)
    requires i < |txs|
    ensures Count(txs, txs[i].from) > 0
  {
    assert txs == (txs[..i] + [txs[i]]) + txs[i + 1..];
    Concat(txs[..i] + [txs[i]], txs[i + 1..], txs[i].from);
    Snoc(txs[..i], txs[i], txs[i].from);
  }

  lemma {:induction false} FirstNoncesExist(txs: seq<Tx>) returns (m: map<Address, uint64>)
    ensures FirstNonces(m, txs)
  {
    if txs == [] {
      m := map[];
    } else {
      var n := |txs| - 1;
      m := FirstNoncesExist(txs[..n]);
      FirstNoncesSnoc(m, txs[..n], txs[n]);
      assert txs[..n] + [txs[n]] == txs;
      m := if txs[n].from in m then m else m[txs[n].from := txs[n].nonce];
    }
  }

  lemma QueueNotEmpty(confirmed: map<Hash, BlockInfo>, queue: seq<Block>, hash: Hash)
    requires BlocksMatch(confirmed, queue) && hash in confirmed
    ensures queue != []
  {
  }

  lemma GasSumNil()
    ensures GasSum([]) == 0
  {
  }

  lemma GasSumPrefix(txs: seq<Tx>, i: nat)
    requires i < |txs|
    ensures GasSum(txs[..i + 1]) == GasSum(txs[..i]) + txs[i].gas <= GasSum(txs)
  {
    assert txs[..i + 1] == txs[..i] + [txs[i]];
    GasSumConcat(txs[..i], [txs[i]]);
    assert GasSum([txs[i]]) == txs[i].gas + GasSum([txs[i]][1..]);
    assert txs == txs[..i + 1] + txs[i + 1..];
    GasSumConcat(txs[..i + 1], txs[i + 1..]);
  }
}
