/** The application object (dex/app.go): its ledgers are fields updated in place, and the loops of
    validateNonce, VerifyBlock, preparePayload, addConfirmedBlock, removeConfirmedBlock and
    BlockDelivered are proved against the queue-level definitions. */
module DexconApplication {
  import opened Types
  import opened Gas
  import opened Processor
  import opened Sequencing
  import opened Dexcon
  import opened Ledger
  import opened PayloadBuilder

  /** `validateNonce`: consecutive nonces per sender, and each sender's first nonce. */
  method ValidateNonce(txs: seq<Tx>) returns (r: Option<map<Address, uint64>>)
    ensures r.Some? <==> Chained(txs)
    ensures r.Some? ==> FirstNonces(r.value, txs)
  {
    hide Inc, FirstNonces, LastNonces, ChainedAt;
    var first: map<Address, uint64>, last: map<Address, uint64> := map[], map[];
    NoncesNil();
    assert txs[..0] == [];
    for i := 0 to |txs|
      invariant FirstNonces(first, txs[..i]) && LastNonces(last, txs[..i])
      invariant forall j :: 0 <= j < i ==> ChainedAt(txs[..j], txs[j])
    {
      var t := txs[i];
      PrefixOf(txs, i);
      NoncesSnoc(first, last, txs[..i], t);
      if t.from in first {
        if Inc(last[t.from]) != t.nonce {
          assert !ChainedAt(txs[..i], txs[i]);
          return None;
        }
        last := last[t.from := t.nonce];
      } else {
        last := last[t.from := t.nonce];
        first := first[t.from := t.nonce];
      }
    }
    assert txs[..|txs|] == txs;
    return Some(first);
  }

  /** `validateGasPrice`, given the configuration of the round. */
  method ValidateGasPrice(txs: seq<Tx>, config: Option<GovConfig>) returns (ok: bool)
    ensures ok <==> config.Some? && PricesAtLeast(txs, config.value.minGasPrice)
  {
    if config.None? {
      return false;
    }
    for i := 0 to |txs|
      invariant PricesAtLeast(txs[..i], config.value.minGasPrice)
    {
      if config.value.minGasPrice > txs[i].price {
        return false;
      }
      PrefixOf(txs, i);
    }
    assert txs[..|txs|] == txs;
    return true;
  }

  /** The cached nonce plus one, or the state nonce, is the nonce after everything undelivered. */
  method ExpectedNonce(nonces: map<Address, uint64>, ghost costs: map<Address, nat>, ghost before: seq<Tx>,
                       state: World, a: Address)
    returns (n: uint64)
    requires CostsMatch(nonces, costs, before) && Executable(state, before)
    ensures n == NextNonce(state, before, a)
  {
    assert CostsMatchAt(nonces, costs, before, a);
    if a in nonces {
      LastBeforeNext(state, before, a);
      n := Inc(nonces[a]);
    } else {
      NoCountNoAdvance(NonceOf(state, a), before, a);
      n := NonceOf(state, a);
    }
  }

  /** State balance minus undelivered cost. */
  method AvailableBalance(ghost nonces: map<Address, uint64>, costs: map<Address, nat>, ghost before: seq<Tx>,
                          state: World, a: Address)
    returns (balance: int)
    requires CostsMatch(nonces, costs, before)
    ensures balance == BalanceOf(state, a) - Spend(before, a)
  {
    assert CostsMatchAt(nonces, costs, before, a);
    balance := BalanceOf(state, a);
    if a in costs {
      balance := balance - costs[a];
    } else {
      NoCountNoSpend(before, a);
    }
  }

  ghost predicate RunningBalances(balances: map<Address, int>, state: World, txs: seq<Tx>) {
    forall a :: a in balances ==> balances[a] == BalanceOf(state, a) - Spend(txs, a)
  }

  /** The balances `VerifyBlock` starts from, one for every sender of the block. */
  method StartBalances(ghost nonces: map<Address, uint64>, costs: map<Address, nat>, ghost before: seq<Tx>,
                       state: World, senders: set<Address>)
    returns (balances: map<Address, int>)
    requires CostsMatch(nonces, costs, before)
    ensures balances.Keys == senders && RunningBalances(balances, state, before)
  {
    balances := map[];
    var todo := senders;
    while todo != {}
      invariant todo <= senders && balances.Keys == senders - todo
      invariant RunningBalances(balances, state, before)
    {
      var a :| a in todo;
      var balance := AvailableBalance(nonces, costs, before, state, a);
      balances := balances[a := balance];
      todo := todo - {a};
    }
  }

  lemma RunningBalancesSnoc(balances: map<Address, int>, state: World, txs: seq<Tx>, t: Tx)
    requires RunningBalances(balances, state, txs) && t.from in balances
    ensures RunningBalances(balances[t.from := balances[t.from] - Cost(t)], state, txs + [t])
  {
    forall a | a in balances
      ensures Spend(txs + [t], a) == Spend(txs, a) + if t.from == a then Cost(t) else 0
    {
      Snoc(txs, t, a);
    }
  }

  lemma AffordableByBalance(balances: map<Address, int>, state: World, txs: seq<Tx>, t: Tx)
    requires RunningBalances(balances, state, txs) && t.from in balances
    ensures AffordableAt(state, txs, t) <==> CoversIntrinsic(t, true) && balances[t.from] - Cost(t) >= 0
  {
  }

  /** The running balances and gas of the last loop of `VerifyBlock`. */
  method VerifyBalances(start: map<Address, int>, state: World, ghost before: seq<Tx>, blockGasLimit: nat, txs: seq<Tx>)
    returns (ok: bool)
    requires RunningBalances(start, state, before)
    requires forall i :: 0 <= i < |txs| ==> txs[i].from in start
    ensures ok <==> Affordable(state, before, txs, |txs|) && GasSum(txs) <= blockGasLimit
  {
    hide Cost, IntrinsicGas, GasSum, AffordableAt, RunningBalances, Spend;
    assert before + txs[..0] == before && GasSum(txs[..0]) == 0 by { GasSumNil(); }
    var balances, gasUsed := start, 0;
    for i := 0 to |txs|
      invariant balances.Keys == start.Keys && RunningBalances(balances, state, before + txs[..i])
      invariant Affordable(state, before, txs, i)
      invariant gasUsed == GasSum(txs[..i]) <= blockGasLimit
    {
      var t := txs[i];
      assert before + txs[..i + 1] == (before + txs[..i]) + [t];
      RunningBalancesSnoc(balances, state, before + txs[..i], t);
      GasSumPrefix(txs, i);
      AffordableByBalance(balances, state, before + txs[..i], t);
      var intrinsic := IntrinsicGas(t.data, t.to.None?, true);
      if intrinsic.None? {
        return false;
      }
      if t.gas < intrinsic.value {
        return false;
      }
      var balance := balances[t.from] - Cost(t);
      if balance < 0 {
        return false;
      }
      gasUsed := gasUsed + t.gas;
      if gasUsed > blockGasLimit {
        return false;
      }
      AffordableSnoc(state, before, txs, i);
      balances := balances[t.from := balance];
    }
    assert txs[..|txs|] == txs;
    return true;
  }

  /** The first loop of `addConfirmedBlock`: the cost and nonce maps after the block, and what each of
      its senders pays. It stops at a nonce that does not exceed the cached one. */
  method RecordTransactions(nonces: map<Address, uint64>, costs: map<Address, nat>, ghost before: seq<Tx>, txs: seq<Tx>)
    returns (ok: bool, nonces': map<Address, uint64>, costs': map<Address, nat>, addressMap: map<Address, nat>)
    requires CostsMatch(nonces, costs, before)
    ensures ok <==> Increasing(before, txs)
    ensures ok ==> CostsMatch(nonces', costs', before + txs) && AddressCosts(addressMap, txs)
  {
    assert before + txs[..0] == before;
    nonces', costs', addressMap := nonces, costs, map[];
    for i := 0 to |txs|
      invariant AddressCosts(addressMap, txs[..i])
      invariant CostsMatch(nonces', costs', before + txs[..i])
      invariant forall j :: 0 <= j < i ==> IncreasesAt(before + txs[..j], txs[j])
    {
      var t := txs[i];
      PrefixOf(txs, i);
      assert before + txs[..i + 1] == (before + txs[..i]) + [t];
      AddressCostsSnoc(addressMap, txs[..i], t);
      CostsMatchSnoc(nonces', costs', before + txs[..i], t);
      assert CostsMatchAt(nonces', costs', before + txs[..i], t.from);
      addressMap := addressMap[t.from := if t.from in addressMap then addressMap[t.from] + Cost(t) else Cost(t)];
      if t.from !in nonces' || nonces'[t.from] < t.nonce {
        nonces' := nonces'[t.from := t.nonce];
      } else {
        assert !IncreasesAt(before + txs[..i], txs[i]);
        return false, nonces', costs', addressMap;
      }
      costs' := costs'[t.from := (if t.from in costs' then costs'[t.from] else 0) + Cost(t)];
    }
    assert txs[..|txs|] == txs;
    ok := true;
  }

  /** The second loop of `addConfirmedBlock`: one more block for every sender it names. */
  method CountSenders(counters: map<Address, nat>, addressMap: map<Address, nat>, ghost queue: seq<Block>,
                      ghost block: Block)
    returns (counters': map<Address, nat>)
    requires AddressCosts(addressMap, TxsOf(block)) && CountersMatch(counters, queue)
    ensures CountersMatch(counters', queue + [block])
  {
    counters' := counters;
    ghost var longer := queue + [block];
    var todo := addressMap.Keys;
    while todo != {}
      invariant todo <= addressMap.Keys
      invariant forall a :: CountersMatchAt(counters', if a in addressMap && a !in todo then longer else queue, a)
    {
      var a :| a in todo;
      NamingSnoc(queue, block, a);
      assert AddressCostsAt(addressMap, TxsOf(block), a);
      assert CountersMatchAt(counters', if a in addressMap && a !in todo then longer else queue, a);
      ghost var c, t := counters', todo;
      counters' := counters'[a := (if a in counters' then counters'[a] else 0) + 1];
      todo := todo - {a};
      forall b
        ensures CountersMatchAt(counters', if b in addressMap && b !in todo then longer else queue, b)
      {
        assert CountersMatchAt(c, if b in addressMap && b !in t then longer else queue, b);
      }
    }
    forall a
      ensures CountersMatchAt(counters', longer, a)
    {
      NamingSnoc(queue, block, a);
      assert AddressCostsAt(addressMap, TxsOf(block), a);
      assert CountersMatchAt(counters', if a in addressMap && a !in todo then longer else queue, a);
    }
  }

  ghost predicate LedgerAt(nonces: map<Address, uint64>, costs: map<Address, nat>, counters: map<Address, nat>,
                           queue: seq<Block>, a: Address)
  {
    CostsMatchAt(nonces, costs, Flat(queue), a) && CountersMatchAt(counters, queue, a)
  }

  /** One address of a removed block: it pays its share less, or is forgotten with its last block. */
  method RemoveAddress(nonces: map<Address, uint64>, costs: map<Address, nat>, counters: map<Address, nat>,
                       a: Address, addresses: map<Address, nat>, ghost queue: seq<Block>)
    returns (nonces': map<Address, uint64>, costs': map<Address, nat>, counters': map<Address, nat>)
    requires queue != [] && AddressCostsAt(addresses, TxsOf(queue[0]), a) && a in addresses
    requires LedgerAt(nonces, costs, counters, queue, a)
    ensures LedgerAt(nonces', costs', counters', queue[1..], a)
    ensures forall b, q {:trigger LedgerAt(nonces', costs', counters', q, b)} ::
              b != a && LedgerAt(nonces, costs, counters, q, b) ==> LedgerAt(nonces', costs', counters', q, b)
  {
    DropFront(queue, a);
    NamingIsCount(queue, a);
    nonces', costs', counters' := nonces, costs, counters;
    counters' := counters'[a := counters'[a] - 1];
    costs' := costs'[a := costs'[a] - addresses[a]];
    if counters'[a] == 0 {
      counters' := counters' - {a};
      costs' := costs' - {a};
      nonces' := nonces' - {a};
    }
  }

  /** The loop of `removeConfirmedBlock` over the senders of the oldest block. */
  method RemoveAddresses(nonces: map<Address, uint64>, costs: map<Address, nat>, counters: map<Address, nat>,
                         addresses: map<Address, nat>, ghost queue: seq<Block>)
    returns (nonces': map<Address, uint64>, costs': map<Address, nat>, counters': map<Address, nat>)
    requires queue != [] && AddressCosts(addresses, TxsOf(queue[0]))
    requires CostsMatch(nonces, costs, Flat(queue)) && CountersMatch(counters, queue)
    ensures CostsMatch(nonces', costs', Flat(queue[1..])) && CountersMatch(counters', queue[1..])
  {
    nonces', costs', counters' := nonces, costs, counters;
    ghost var rest := queue[1..];
    var todo := addresses.Keys;
    forall a
      ensures LedgerAt(nonces, costs, counters, if a in todo then queue else rest, a)
    {
      assert AddressCostsAt(addresses, TxsOf(queue[0]), a);
      assert CostsMatchAt(nonces, costs, Flat(queue), a) && CountersMatchAt(counters, queue, a);
      if a !in todo {
        UnnamedKeeps(nonces, costs, counters, queue, a);
      }
    }
    while todo != {}
      invariant todo <= addresses.Keys
      invariant forall a :: LedgerAt(nonces', costs', counters', if a in todo then queue else rest, a)
    {
      var a :| a in todo;
      assert AddressCostsAt(addresses, TxsOf(queue[0]), a);
      assert LedgerAt(nonces', costs', counters', if a in todo then queue else rest, a);
      ghost var n, c, k, t := nonces', costs', counters', todo;
      nonces', costs', counters' := RemoveAddress(nonces', costs', counters', a, addresses, queue);
      todo := todo - {a};
      forall b
        ensures LedgerAt(nonces', costs', counters', if b in todo then queue else rest, b)
      {
        assert LedgerAt(n, c, k, if b in t then queue else rest, b);
      }
    }
    forall a
      ensures CostsMatchAt(nonces', costs', Flat(rest), a) && CountersMatchAt(counters', rest, a)
    {
      assert LedgerAt(nonces', costs', counters', if a in todo then queue else rest, a);
    }
  }

  /** The execution part of `BlockDelivered`. */
  method ExecuteBlock(node: Node, chain: seq<ChainBlock>, block: Block, txs: seq<Tx>, ghost queue: seq<Block>)
    returns (panic: Option<PanicReason>, state: World, receipts: seq<Receipt>)
    requires chain != [] && queue != [] && queue[0] == block && txs == TxsOf(block)
    ensures match Deliver(node, View(chain, queue))
            case Panicked(reason) => panic == Some(reason)
            case Delivered(view, rs) =>
              && panic.None? && receipts == rs && view.queue == queue[1..]
              && view.chain == chain + [ChainBlock(node.seal(chain, block, state), state)]
  {
    state, receipts := chain[|chain| - 1].world, [];
    if node.gov(block.round).None? {
      panic := Some(NoConfiguration);
      return;
    }
    if !block.isEmpty {
      if !WitnessMatches(chain, block) {
        panic := Some(WitnessMismatch);
        return;
      }
      var p := Process(node.env, state, MAX_UINT64, txs);
      if p.Failed? {
        panic := Some(TransactionError(p.error));
        return;
      }
      state, receipts := p.world, p.receipts;
    }
    state := node.finalize(state, block);
    panic := None;
  }

  /** There is a configuration, every price reaches its minimum and the gas limits add up to no more than its block
      limit. */
  ghost predicate Permitted(config: Option<GovConfig>, txs: seq<Tx>) {
    && config.Some? && GasSum(txs) <= config.value.blockGasLimit
    && forall t :: t in txs ==> t.price >= config.value.minGasPrice
  }

  /** A payload is acceptable exactly if it is permitted and everything undelivered followed by it is executable. */
  lemma AcceptableMeans(node: Node, v: View, round: nat, txs: seq<Tx>)
    requires v.chain != [] && Executable(Head(v), Flat(v.queue))
    ensures Acceptable(node, v, round, txs) <==>
              Permitted(node.gov(round), txs) && Executable(Head(v), Flat(v.queue) + txs)
  {
    hide Executable, Extends;
    ExtendsIsConcat(Head(v), Flat(v.queue), txs);
    if Acceptable(node, v, round, txs) {
      forall t | t in txs
        ensures t.price >= node.gov(round).value.minGasPrice
      {
        var i :| 0 <= i < |txs| && txs[i] == t;
      }
    }
  }

  datatype Prepared = Prepared(payload: Payload) | WrongHeight | NoConfig | IntrinsicOverflow

  class DexconApp {
    const node: Node
    var chain: seq<ChainBlock>
    var confirmedBlocks: map<Hash, BlockInfo>
    var addressNonce: map<Address, uint64>
    var addressCost: map<Address, nat>
    var addressCounter: map<Address, nat>
    var undeliveredNum: nat
    var deliveredHeight: nat

    /** The confirmed blocks in the order they were confirmed. */
    ghost var queue: seq<Block>

    constructor (node: Node, chain: seq<ChainBlock>)
      requires chain != []
      ensures Valid() && this.node == node && this.chain == chain && queue == []
    {
      this.node, this.chain := node, chain;
      confirmedBlocks, addressNonce, addressCost, addressCounter := map[], map[], map[], map[];
      undeliveredNum, deliveredHeight := 0, |chain| - 1;
      queue := [];
    }

    /** The incremental ledger equals its recomputation from the confirmed blocks. */
    ghost predicate LedgerValid()
      reads this
    {
      && undeliveredNum == |queue|
      && BlocksMatch(confirmedBlocks, queue)
      && CostsMatch(addressNonce, addressCost, Flat(queue))
      && CountersMatch(addressCounter, queue)
    }

    ghost predicate Valid()
      reads this
    {
      chain != [] && deliveredHeight == |chain| - 1 && LedgerValid()
    }

    ghost function ViewOf(): View
      reads this
    {
      View(chain, queue)
    }

    /** `VerifyBlock` reaches exactly the verdict of the reference definition: a payload is accepted
        if and only if everything undelivered followed by the payload is executable from the
        delivered state, prices and gas limit permitting. */
    method VerifyBlock(block: Block) returns (r: Status)
      requires Valid() && Executable(Head(ViewOf()), Flat(queue))
      ensures r == Verdict(node, ViewOf(), block)
      ensures r == VerifyRetryLater <==>
                && block.witnessHash.Some?
                && (block.witnessHeight > deliveredHeight ||
                    (chain[block.witnessHeight].hash == block.witnessHash.value &&
                     block.height != deliveredHeight + undeliveredNum + 1))
      ensures r == VerifyOK <==>
                && block.witnessHash.Some? && block.witnessHeight <= deliveredHeight
                && chain[block.witnessHeight].hash == block.witnessHash.value
                && block.height == deliveredHeight + undeliveredNum + 1
                && (block.payload.NoPayload? ||
                    (block.payload.Txs? && Permitted(node.gov(block.round), block.payload.txs) &&
                     Executable(chain[deliveredHeight].world, Flat(queue) + block.payload.txs)))
    {
      hide Executable, Extends, Acceptable, Permitted;
      if block.payload.Txs? {
        AcceptableMeans(node, ViewOf(), block.round, block.payload.txs);
      }
      if block.witnessHash.None? {
        return VerifyInvalidBlock;
      }
      if |chain| - 1 < block.witnessHeight {
        return VerifyRetryLater;
      }
      if chain[block.witnessHeight].hash != block.witnessHash.value {
        return VerifyInvalidBlock;
      }
      if deliveredHeight + undeliveredNum + 1 != block.height {
        return VerifyRetryLater;
      }
      if block.payload.NoPayload? {
        return VerifyOK;
      }
      var state := chain[deliveredHeight].world;
      if block.payload.Garbage? {
        return VerifyInvalidBlock;
      }
      var txs := block.payload.txs;
      var ok := VerifyTransactions(state, block.round, txs);
      return if ok then VerifyOK else VerifyInvalidBlock;
    }

    /** The part of `VerifyBlock` that looks at the transactions. */
    method VerifyTransactions(state: World, round: nat, txs: seq<Tx>) returns (ok: bool)
      requires Valid() && state == Head(ViewOf()) && Executable(state, Flat(queue))
      ensures ok <==> Acceptable(node, ViewOf(), round, txs)
    {
      ghost var before := Flat(queue);
      ExtendsSplits(state, before, txs);
      var first := ValidateNonce(txs);
      if first.None? {
        ghost var m := FirstNoncesExist(txs);
        ChainedFromExpected(state, before, txs, m);
        return false;
      }
      ChainedFromExpected(state, before, txs, first.value);
      var config := node.gov(round);
      ok := ValidateGasPrice(txs, config);
      if !ok {
        return false;
      }
      var todo := first.value.Keys;
      while todo != {}
        invariant todo <= first.value.Keys
        invariant forall a :: a in first.value && a !in todo ==> first.value[a] == NextNonce(state, before, a)
      {
        var a :| a in todo;
        var expectNonce := ExpectedNonce(addressNonce, addressCost, before, state, a);
        if expectNonce != first.value[a] {
          return false;
        }
        todo := todo - {a};
      }
      var balances := StartBalances(addressNonce, addressCost, before, state, first.value.Keys);
      forall i | 0 <= i < |txs|
        ensures txs[i].from in balances
      {
        SenderCounted(txs, i);
      }
      ok := VerifyBalances(balances, state, before, config.value.blockGasLimit, txs);
    }

    /** The loop of `preparePayload` over the accounts. */
    method BuildPayload(state: World, config: GovConfig, pending: map<Address, seq<Tx>>, order: seq<Address>,
                        deadline: nat)
      returns (overflow: bool, all: seq<Tx>)
      requires Valid() && Executable(state, Flat(queue))
      requires GapFreeLists(pending) && IsOrder(order, pending) && deadline > 0
      ensures IsOrder(Reached(order, deadline), pending)
      ensures overflow <==> TripsOnTheWay(state, Flat(queue), config, pending, Reached(order, deadline))
      ensures !overflow ==> all == Built(state, Flat(queue), config, pending, Reached(order, deadline))
    {
      hide RunOf, Fit, SignedGas, Signed, Overflows, Flat, Executable, Offers, BuiltSoFar, Spend, NextNonce;
      hide CostsMatch, GapFree, Trips, TripsAt;
      var gasUsed, stop := 0, false;
      ghost var reached := Reached(order, deadline);
      ReachedIsOrder(order, deadline, pending);
      overflow, all := false, [];
      ghost var before := Flat(queue);
      var k := 0;
      BuildStart(state, before, config, pending, order);
      while k < |order| && k + 1 < deadline && !stop
        invariant 0 <= k <= |order| && (k > 0 ==> k < deadline) && !overflow
        invariant BuiltSoFar(state, before, config, pending, order[..k], all, gasUsed, stop)
        invariant forall j :: 0 <= j < k ==> !TripsAt(state, before, config, pending, order, j)
      {
        var a := order[k];
        assert order[..k + 1] == order[..k] + [a];
        var available := AvailableBalance(addressNonce, addressCost, before, state, a);
        var expectNonce := ExpectedNonce(addressNonce, addressCost, before, state, a);
        if |pending[a]| == 0 {
          BuildNothing(state, before, config, pending, order[..k], a, all, gasUsed);
          NothingTrips(state, before, config, pending, order, k);
        } else {
          ghost var start, startGas := all, gasUsed;
          TripsAtStep(state, before, config, pending, order, k, start, startGas);
          overflow, stop, all, gasUsed :=
            AppendAccount(a, pending[a], all, gasUsed, available, expectNonce, config, state, before);
          if overflow {
            TripsInBoth(state, before, config, pending, order, deadline, k);
            return;
          }
          BuildStep(state, before, config, pending, order[..k], a, start, startGas, all, gasUsed, stop);
        }
        k := k + 1;
      }
      BuildEnds(state, before, config, pending, order, k, deadline, all, gasUsed, stop);
      forall j | 0 <= j < |reached|
        ensures !TripsAt(state, before, config, pending, reached, j)
      {
        TripsInBoth(state, before, config, pending, order, deadline, j);
        if j >= k {
          FullNeverTrips(state, before, config, pending, order, k, all, gasUsed, j);
        }
      }
    }

    /** `preparePayload`, for any order in which the accounts come and any moment the time runs out. It builds
        exactly what the block takes of the offers of the accounts it gets to. That extends everything
        undelivered at permitted prices, ends for a stated reason, and is accepted if no pending gas limit reaches
        2^63. */
    method PreparePayload(height: nat, round: nat, pending: map<Address, seq<Tx>>, order: seq<Address>, deadline: nat)
      returns (r: Prepared)
      requires Valid() && Executable(Head(ViewOf()), Flat(queue))
      requires GapFreeLists(pending) && IsOrder(order, pending)
      ensures r.WrongHeight? <==> deadline > 0 && height != NextHeight(ViewOf())
      ensures r.Prepared? && r.payload.NoPayload? <==> deadline == 0
      ensures r.NoConfig? <==> deadline > 0 && height == NextHeight(ViewOf()) && node.gov(round).None?
      ensures IsOrder(Reached(order, deadline), pending)
      ensures r.IntrinsicOverflow? <==>
                && deadline > 0 && height == NextHeight(ViewOf()) && node.gov(round).Some?
                && TripsOnTheWay(Head(ViewOf()), Flat(queue), node.gov(round).value, pending, Reached(order, deadline))
      ensures r.IntrinsicOverflow? ==> exists a, t :: a in pending && t in pending[a] && Overflows(t)
      ensures r.Prepared? && deadline > 0 ==>
                && node.gov(round).Some?
                && r.payload == Txs(Built(Head(ViewOf()), Flat(queue), node.gov(round).value, pending,
                                          Reached(order, deadline)))
      ensures r.Prepared? && r.payload.Txs? ==>
                var config, txs := node.gov(round).value, r.payload.txs;
                && Extends(Head(ViewOf()), Flat(queue), txs) && PricesAtLeast(txs, config.minGasPrice)
                && SignedGas(txs) <= config.blockGasLimit
                && (forall t :: t in txs ==> t.from in order && t in pending[t.from])
                && Maximal(Head(ViewOf()), Flat(queue), config, txs, pending, Reached(order, deadline))
      ensures r.Prepared? && r.payload.Txs? && (forall a :: a in pending ==> GasBelowI63(pending[a])) ==>
                Acceptable(node, ViewOf(), round, r.payload.txs)
    {
      ReachedIsOrder(order, deadline, pending);
      if deadline == 0 {
        return Prepared(NoPayload);
      }
      if deliveredHeight + undeliveredNum + 1 != height {
        return WrongHeight;
      }
      var state := chain[deliveredHeight].world;
      var config := node.gov(round);
      if config.None? {
        return NoConfig;
      }
      hide *;
      BuiltFacts(node, ViewOf(), round, pending, order, deadline);
      var overflow, all := BuildPayload(state, config.value, pending, order, deadline);
      if overflow {
        TripsSomewhere(state, Flat(queue), config.value, pending, Reached(order, deadline));
        return IntrinsicOverflow;
      }
      return Prepared(Txs(all));
    }

    /** `addConfirmedBlock`. It fails exactly on an undecodable payload or a nonce that does not exceed the
        sender's cached one; otherwise, for a block not confirmed yet, the ledger is the recomputed ledger of the
        longer queue. */
    method AddConfirmedBlock(block: Block) returns (ok: bool)
      requires Valid()
      modifies this
      ensures ok <==> !block.payload.Garbage? && Increasing(Flat(old(queue)), TxsOf(block))
      ensures ok ==> ViewOf() == Confirm(old(ViewOf()), block) && undeliveredNum == old(undeliveredNum) + 1
      ensures ok && block.hash !in old(confirmedBlocks) ==> Valid()
    {
      hide CostsMatch, CountersMatch, AddressCosts, Increasing, BlocksMatch, Flat, InfoOf;
      if block.payload.Garbage? {
        return false;
      }
      var txs := if block.payload.Txs? then block.payload.txs else [];
      var addressMap;
      ok, addressNonce, addressCost, addressMap := RecordTransactions(addressNonce, addressCost, Flat(queue), txs);
      if !ok {
        return;
      }
      addressCounter := CountSenders(addressCounter, addressMap, queue, block);
      var info := BlockInfo(addressMap, block, txs);
      if block.hash !in confirmedBlocks {
        BlocksMatchSnoc(confirmedBlocks, queue, block, info);
      }
      confirmedBlocks := confirmedBlocks[block.hash := info];
      undeliveredNum := undeliveredNum + 1;
      FlatSnoc(queue, block);
      queue := queue + [block];
    }

    /** `BlockConfirmed` panics when the block is refused. For a block consensus may confirm that is exactly when a
        nonce wraps, and otherwise everything undelivered stays executable. */
    method BlockConfirmed(block: Block) returns (panicked: bool)
      requires Valid()
      modifies this
      ensures panicked <==> block.payload.Garbage? || !Increasing(Flat(old(queue)), TxsOf(block))
      ensures !panicked && block.hash !in old(confirmedBlocks) ==> Valid()
      ensures old(Inv(node, ViewOf())) && Confirmable(node, old(ViewOf()), block) ==>
                && (panicked <==> Wraps(Flat(old(queue)), TxsOf(block)))
                && (!panicked ==> Inv(node, ViewOf()))
    {
      hide Increasing, Wraps, Inv, Confirmable, Flat, TxsOf;
      ghost var v := ViewOf();
      if Inv(node, v) && v.chain != [] && Confirmable(node, v, block) {
        ConfirmStepGoes(node, v, block);
        ConfirmableDecodes(node, v, block);
        StepMeans(node, v, block);
      }
      var ok := AddConfirmedBlock(block);
      panicked := !ok;
    }

    /** `removeConfirmedBlock` of the oldest block leaves the recomputed ledger of the rest. */
    method RemoveConfirmedBlock(hash: Hash)
      requires LedgerValid() && queue != [] && hash == queue[0].hash
      modifies this
      ensures LedgerValid() && queue == old(queue)[1..]
      ensures chain == old(chain) && deliveredHeight == old(deliveredHeight)
    {
      hide CostsMatch, CountersMatch, AddressCosts;
      BlocksMatchDrop(confirmedBlocks, queue);
      var info := confirmedBlocks[hash];
      assert AddressCosts(info.addresses, TxsOf(queue[0])) by { assert InfoOf(info, queue[0]); }
      ghost var rest := queue[1..];
      var nonces, costs, counters :=
        RemoveAddresses(addressNonce, addressCost, addressCounter, info.addresses, queue);
      addressNonce, addressCost, addressCounter := nonces, costs, counters;
      confirmedBlocks := confirmedBlocks - {hash};
      undeliveredNum := undeliveredNum - 1;
      queue := rest;
    }

    /** Execute the oldest confirmed block and take it off the ledger. */
    method DeliverConfirmed(hash: Hash) returns (panic: Option<PanicReason>, receipts: seq<Receipt>)
      requires Valid() && hash in confirmedBlocks && queue[0].hash == hash && queue[0].height == |chain|
      modifies this
      ensures Valid() && (panic.Some? ==> ViewOf() == old(ViewOf()))
      ensures match old(Deliver(node, ViewOf()))
              case Panicked(reason) => panic == Some(reason)
              case Delivered(view, rs) => panic.None? && receipts == rs && ViewOf() == view
    {
      var info := confirmedBlocks[hash];
      assert InfoOf(info, queue[0]);
      var state;
      panic, state, receipts := ExecuteBlock(node, chain, info.block, info.txs, queue);
      if panic.Some? {
        return;
      }
      chain := chain + [ChainBlock(node.seal(chain, info.block, state), state)];
      RemoveConfirmedBlock(hash);
      deliveredHeight := info.block.height;
    }

    /** `BlockDelivered`. An unknown hash panics; blocks are delivered in the order they were confirmed, and then
        panic, receipts and new state are exactly those of `Deliver`. If everything undelivered was executable
        it does not panic, and what is left is executable again. */
    method BlockDelivered(hash: Hash) returns (panic: Option<PanicReason>, receipts: seq<Receipt>)
      requires Valid()
      requires hash in confirmedBlocks ==> queue[0].hash == hash && queue[0].height == |chain|
      modifies this
      ensures Valid()
      ensures hash !in old(confirmedBlocks) ==> panic == Some(UnknownBlock)
      ensures panic.Some? ==> ViewOf() == old(ViewOf())
      ensures hash in old(confirmedBlocks) ==>
                match old(Deliver(node, ViewOf()))
                case Panicked(reason) => panic == Some(reason)
                case Delivered(view, rs) => panic.None? && receipts == rs && ViewOf() == view
      ensures WellBehaved(node) && old(Inv(node, ViewOf())) && hash in old(confirmedBlocks) &&
              node.gov(old(queue)[0].round).Some? ==>
                panic.None? && Inv(node, ViewOf())
    {
      hide Inv, WellBehaved, Deliver, BlocksMatch, CostsMatch, CountersMatch, Flat;
      if hash !in confirmedBlocks {
        return Some(UnknownBlock), [];
      }
      QueueNotEmpty(confirmedBlocks, queue, hash);
      ghost var v := ViewOf();
      if WellBehaved(node) && Inv(node, v) && node.gov(queue[0].round).Some? {
        DeliverKeepsInv(node, v);
      }
      panic, receipts := DeliverConfirmed(hash);
    }
  }

  /** An application at the start of its chain, offered one free transaction with a gas limit of 2^63 or more,
      builds a payload that it then refuses. */
  method OversizedGasIsBuiltAndRefused(node: Node, world: World, hash: Hash, t: Tx)
    returns (built: Prepared, verdict: Status)
    requires node.gov(0) == Some(GovConfig(0, 30_000_000))
    requires Free(t) && t.gas >= I63 && t.nonce == NonceOf(world, t.from)
    ensures built == Prepared(Txs([t])) && verdict == VerifyInvalidBlock
  {
    hide Built, Extends, Fits, GasSum, GapFree, Overflows, Free;
    OversizedIsBuilt(world, node.gov(0).value, t);
    var app := new DexconApp(node, [ChainBlock(hash, world)]);
    built := app.PreparePayload(1, 0, map[t.from := [t]], [t.from], 2);
    verdict := app.VerifyBlock(Block(0, 1, 0, false, Txs([t]), 0, Some(hash)));
  }
}
