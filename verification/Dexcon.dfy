/** The consensus application seen from outside (dex/app.go): a chain of delivered blocks, a
    queue of confirmed but undelivered ones, and the two steps that move blocks along. The
    ledgers kept by the application object are in DexconApp.dfy. */
module Dexcon {
  import opened Types
  import opened Gas
  import opened Processor
  import opened Sequencing

  /******* Blocks, governance and the chain *******/

  /** `Garbage` is a payload that does not decode or has an underivable sender. */
  datatype Payload = NoPayload | Garbage | Txs(txs: seq<Tx>)

  /** A consensus block. `witnessHash` is `None` if the witness data does not decode. */
  datatype Block = Block(hash: Hash, height: nat, round: nat, isEmpty: bool, payload: Payload,
                         witnessHeight: nat, witnessHash: Option<Hash>)

  datatype GovConfig = GovConfig(minGasPrice: nat, blockGasLimit: uint64)

  /** A delivered block: its hash and the state after it. */
  datatype ChainBlock = ChainBlock(hash: Hash, world: World)

  /** Everything foreign: the EVM, block finalization, block hashing, the governance
      configuration by round, and which accounts are externally owned. */
  datatype Node = Node(env: Env, finalize: (World, Block) -> World, seal: (seq<ChainBlock>, Block, World) -> Hash,
                       gov: nat -> Option<GovConfig>, external: Address -> bool)

  /** Finalization pays rewards; like the EVM it leaves the nonces of externally owned accounts
      alone and takes nothing from them. */
  ghost predicate WellBehaved(node: Node) {
    && Faithful(node.env, node.external)
    && forall w: World, b: Block, a: Address :: node.external(a) ==>
         && NonceOf(node.finalize(w, b), a) == NonceOf(w, a)
         && BalanceOf(node.finalize(w, b), a) >= BalanceOf(w, a)
  }

  function TxsOf(b: Block): seq<Tx> {
    if b.payload.Txs? then b.payload.txs else []
  }

  datatype View = View(chain: seq<ChainBlock>, queue: seq<Block>)

  function Head(v: View): World
    requires v.chain != []
  {
    v.chain[|v.chain| - 1].world
  }

  /** The height the next confirmed block must have: delivered + undelivered + 1. */
  function NextHeight(v: View): nat {
    |v.chain| + |v.queue|
  }

  /** All undelivered transactions in the order they will be executed. */
  function Flat(queue: seq<Block>): seq<Tx> {
    if queue == [] then [] else TxsOf(queue[0]) + Flat(queue[1..])
  }

  lemma {:induction false} FlatSnoc(queue: seq<Block>, b: Block)
    ensures Flat(queue + [b]) == Flat(queue) + TxsOf(b)
  {
    if queue == [] {
      assert queue + [b] == [b];
      assert Flat([b][1..]) == [];
    } else {
      assert (queue + [b])[1..] == queue[1..] + [b];
      FlatSnoc(queue[1..], b);
    }
  }

  /******* Verification *******/

  datatype Status = VerifyOK | VerifyRetryLater | VerifyInvalidBlock

  predicate WitnessMatches(chain: seq<ChainBlock>, b: Block) {
    b.witnessHash.Some? && b.witnessHeight < |chain| && chain[b.witnessHeight].hash == b.witnessHash.value
  }

  predicate PricesAtLeast(txs: seq<Tx>, price: nat) {
    forall i :: 0 <= i < |txs| ==> price <= txs[i].price
  }

  /** A payload that may follow everything undelivered. */
  predicate Acceptable(node: Node, v: View, round: nat, txs: seq<Tx>)
    requires v.chain != []
  {
    && node.gov(round).Some?
    && PricesAtLeast(txs, node.gov(round).value.minGasPrice)
    && Extends(Head(v), Flat(v.queue), txs)
    && GasSum(txs) <= node.gov(round).value.blockGasLimit
  }

  /** The verdict VerifyBlock is to reach. */
  function Verdict(node: Node, v: View, b: Block): Status
    requires v.chain != []
  {
    if b.witnessHash.None? then VerifyInvalidBlock
    else if |v.chain| - 1 < b.witnessHeight then VerifyRetryLater
    else if !WitnessMatches(v.chain, b) then VerifyInvalidBlock
    else if NextHeight(v) != b.height then VerifyRetryLater
    else
      match b.payload
      case NoPayload => VerifyOK
      case Garbage => VerifyInvalidBlock
      case Txs(txs) => if Acceptable(node, v, b.round, txs) then VerifyOK else VerifyInvalidBlock
  }

  /******* Delivery *******/

  datatype PanicReason = UnknownBlock | NoConfiguration | WitnessMismatch | TransactionError(error: TxError)

  datatype Delivery =
    | Delivered(view: View, receipts: seq<Receipt>)
    | Panicked(reason: PanicReason)

  function Append(node: Node, v: View, b: Block, executed: World): View {
    var w := node.finalize(executed, b);
    View(v.chain + [ChainBlock(node.seal(v.chain, b, w), w)], if v.queue == [] then [] else v.queue[1..])
  }

  /** Deliver the oldest confirmed block, with the pool of 2^64-1 the local path uses. */
  function Deliver(node: Node, v: View): Delivery
    requires v.chain != [] && v.queue != []
  {
    var b := v.queue[0];
    if node.gov(b.round).None? then Panicked(NoConfiguration)
    else if b.isEmpty then Delivered(Append(node, v, b, Head(v)), [])
    else if !WitnessMatches(v.chain, b) then Panicked(WitnessMismatch)
    else
      match ProcessFrom(node.env, Head(v), MAX_UINT64, 0, TxsOf(b))
      case Failed(e) => Panicked(TransactionError(e))
      case Done(w, receipts, _, _) => Delivered(Append(node, v, b, w), receipts)
  }

  /** What a delivery leaves behind: the queue without the block, and one more block on the chain, whose state is the
      finalized state after the block's transactions, each applied from where the one before left off and each with
      its own receipt. An empty block has no receipts and only finalizes. */
  lemma DeliveryStepByStep(node: Node, v: View) returns (st: Stages)
    requires v.chain != [] && v.queue != [] && Deliver(node, v).Delivered?
    ensures var d, b, k := Deliver(node, v), v.queue[0], |v.chain|;
            && d.view.queue == v.queue[1..] && |d.view.chain| == k + 1 && d.view.chain[..k] == v.chain
            && d.view.chain[k].hash == node.seal(v.chain, b, d.view.chain[k].world)
            && (b.isEmpty ==> d.receipts == [] && d.view.chain[k].world == node.finalize(v.chain[k - 1].world, b))
            && (!b.isEmpty ==>
                  && StepByStep(node.env, v.chain[k - 1].world, MAX_UINT64, TxsOf(b), st, d.receipts)
                  && |d.receipts| == |TxsOf(b)|
                  && d.view.chain[k].world == node.finalize(st.worlds[|d.receipts|], b))
  {
    hide ProcessFrom, StepByStep;
    var receipts;
    st, receipts := ProcessedStepByStep(node.env, Head(v), MAX_UINT64, 0, TxsOf(v.queue[0]));
  }

  /** Why a delivery panics: no configuration for the round, a witness that does not match, or the first transaction
      that is rejected, with its error. */
  lemma DeliveryPanics(node: Node, v: View) returns (st: Stages, receipts: seq<Receipt>)
    requires v.chain != [] && v.queue != []
    ensures var b := v.queue[0];
            && (Deliver(node, v) == Panicked(NoConfiguration) <==> node.gov(b.round).None?)
            && (Deliver(node, v) == Panicked(WitnessMismatch) <==>
                  node.gov(b.round).Some? && !b.isEmpty &&
                  !(b.witnessHash.Some? && b.witnessHeight < |v.chain| &&
                    v.chain[b.witnessHeight].hash == b.witnessHash.value))
            && (Deliver(node, v).Panicked? && Deliver(node, v).reason.TransactionError? ==>
                  && StepByStep(node.env, Head(v), MAX_UINT64, TxsOf(b), st, receipts) && |receipts| < |TxsOf(b)|
                  && Transition(node.env, st.worlds[|receipts|], st.pools[|receipts|], TxsOf(b)[|receipts|]) ==
                     Rejected(Deliver(node, v).reason.error))
  {
    hide ProcessFrom, StepByStep, Transition;
    st, receipts := ProcessedStepByStep(node.env, Head(v), MAX_UINT64, 0, TxsOf(v.queue[0]));
  }

  /******* The invariant of every run *******/

  ghost predicate QueuedBlockOk(node: Node, v: View, b: Block) {
    && (b.isEmpty ==> b.payload.NoPayload?)
    && (!b.isEmpty ==> WitnessMatches(v.chain, b))
    && GasSum(TxsOf(b)) <= MAX_UINT64
  }

  ghost predicate Inv(node: Node, v: View) {
    && v.chain != []
    && Executable(Head(v), Flat(v.queue))
    && AllExternal(node.external, Flat(v.queue))
    && (forall i :: 0 <= i < |v.queue| ==> v.queue[i].height == |v.chain| + i)
    && (forall i :: 0 <= i < |v.queue| ==> QueuedBlockOk(node, v, v.queue[i]))
  }

  /** A block consensus may confirm: one VerifyBlock accepts, or the empty block of the height. */
  ghost predicate Confirmable(node: Node, v: View, b: Block)
    requires v.chain != []
  {
    && AllExternal(node.external, TxsOf(b))
    && if b.isEmpty then b.payload.NoPayload? && b.height == NextHeight(v)
       else Verdict(node, v, b) == VerifyOK
  }

  function Confirm(v: View, b: Block): View {
    v.(queue := v.queue + [b])
  }

  lemma ExternalConcat(external: Address -> bool, p: seq<Tx>, q: seq<Tx>)
    ensures AllExternal(external, p + q) <==> AllExternal(external, p) && AllExternal(external, q)
  {
    assert forall i :: 0 <= i < |p| ==> (p + q)[i] == p[i];
    forall i | 0 <= i < |q| && AllExternal(external, p + q)
      ensures external(q[i].from)
    {
      assert (p + q)[|p| + i] == q[i];
    }
  }

  lemma ConfirmKeepsInv(node: Node, v: View, b: Block)
    requires Inv(node, v) && Confirmable(node, v, b)
    ensures Inv(node, Confirm(v, b))
  {
    hide Executable, AllExternal, Fits;
    var v' := Confirm(v, b);
    FlatSnoc(v.queue, b);
    ExternalConcat(node.external, Flat(v.queue), TxsOf(b));
    assert Extends(Head(v), Flat(v.queue), TxsOf(b));
    ExtendsIsConcat(Head(v), Flat(v.queue), TxsOf(b));
    forall i | 0 <= i < |v'.queue|
      ensures QueuedBlockOk(node, v', v'.queue[i])
    {
      if i < |v.queue| {
        assert QueuedBlockOk(node, v, v.queue[i]);
      }
    }
  }

  lemma FinalizeKeepsExecutable(node: Node, w: World, b: Block, txs: seq<Tx>)
    requires WellBehaved(node) && Executable(w, txs) && AllExternal(node.external, txs)
    ensures Executable(node.finalize(w, b), txs)
  {
    ExecutableMonotone(w, node.finalize(w, b), txs);
  }

  /** Delivery of the oldest block cannot fail on a transaction, and whatever could follow the
      whole queue before can still follow the rest of it afterwards. */
  lemma DeliveryLeavesExecutable(node: Node, v: View, more: seq<Tx>)
    requires WellBehaved(node) && Inv(node, v) && v.queue != []
    requires node.gov(v.queue[0].round).Some?
    requires Executable(Head(v), Flat(v.queue) + more) && AllExternal(node.external, more)
    ensures Deliver(node, v).Delivered?
    ensures var v' := Deliver(node, v).view;
            v'.chain != [] && Executable(Head(v'), Flat(v'.queue) + more)
  {
    hide Executable, AllExternal, Faithful;
    var b := v.queue[0];
    assert QueuedBlockOk(node, v, b);
    var front, rest := TxsOf(b), Flat(v.queue[1..]) + more;
    assert Flat(v.queue) + more == front + rest;
    ExternalConcat(node.external, Flat(v.queue), more);
    ExternalConcat(node.external, front, rest);
    FrontRuns(node.env, node.external, Head(v), MAX_UINT64, 0, front, rest);
    if b.isEmpty {
      assert front + rest == rest;
    }
    var executed := if b.isEmpty then Head(v) else ProcessFrom(node.env, Head(v), MAX_UINT64, 0, front).world;
    assert Executable(executed, rest);
    FinalizeKeepsExecutable(node, executed, b, rest);
  }

  lemma DeliverKeepsInv(node: Node, v: View)
    requires WellBehaved(node) && Inv(node, v) && v.queue != []
    requires node.gov(v.queue[0].round).Some?
    ensures Deliver(node, v).Delivered? && Inv(node, Deliver(node, v).view)
  {
    assert Flat(v.queue) + [] == Flat(v.queue);
    DeliveryLeavesExecutable(node, v, []);
    var v' := Deliver(node, v).view;
    assert Flat(v'.queue) + [] == Flat(v'.queue);
    ExternalConcat(node.external, TxsOf(v.queue[0]), Flat(v.queue[1..]));
    forall i | 0 <= i < |v'.queue|
      ensures v'.queue[i].height == |v'.chain| + i && QueuedBlockOk(node, v', v'.queue[i])
    {
      assert v'.queue[i] == v.queue[i + 1];
      assert QueuedBlockOk(node, v, v.queue[i + 1]);
    }
  }

  /******* Runs *******/

  datatype Step = ConfirmStep(block: Block) | DeliverStep

  /** What consensus promises about the next step: it confirms only blocks that pass, and delivers
      a confirmed block whose round has a configuration. */
  ghost predicate Enabled(node: Node, v: View, s: Step)
    requires v.chain != []
  {
    match s
    case ConfirmStep(b) => Confirmable(node, v, b)
    case DeliverStep => v.queue != [] && node.gov(v.queue[0].round).Some?
  }

  /** The state after a step, or nothing if it panics: BlockConfirmed when addConfirmedBlock refuses the block,
      BlockDelivered when the delivery fails. */
  ghost function Execute(node: Node, v: View, s: Step): Option<View>
    requires v.chain != [] && Enabled(node, v, s)
  {
    match s
    case ConfirmStep(b) => if Increasing(Flat(v.queue), TxsOf(b)) then Some(Confirm(v, b)) else None
    case DeliverStep => if Deliver(node, v).Delivered? then Some(Deliver(node, v).view) else None
  }

  /** `run` leads from `v` through enabled steps only, as far as no step has panicked. */
  ghost predicate IsRun(node: Node, v: View, run: seq<Step>)
    decreases |run|
  {
    run == [] ||
    (v.chain != [] && Enabled(node, v, run[0]) &&
     (Execute(node, v, run[0]).Some? ==> IsRun(node, Execute(node, v, run[0]).value, run[1..])))
  }

  /** No step of the run panics. */
  ghost predicate Completes(node: Node, v: View, run: seq<Step>)
    requires IsRun(node, v, run)
    decreases |run|
  {
    run == [] ||
    (Execute(node, v, run[0]).Some? && Completes(node, Execute(node, v, run[0]).value, run[1..]))
  }

  /** No confirmation of the run takes a sender's nonces past 2^64-1 within the undelivered transactions. */
  ghost predicate NeverWraps(node: Node, v: View, run: seq<Step>)
    requires IsRun(node, v, run)
    decreases |run|
  {
    run == [] ||
    (&& (run[0].ConfirmStep? ==> !Wraps(Flat(v.queue), TxsOf(run[0].block)))
     && (Execute(node, v, run[0]).Some? ==> NeverWraps(node, Execute(node, v, run[0]).value, run[1..])))
  }

  /** A confirmation of an accepted or empty block panics exactly on a wrap, and otherwise keeps the invariant. */
  lemma ConfirmStepGoes(node: Node, v: View, b: Block)
    requires Inv(node, v) && Confirmable(node, v, b)
    ensures Execute(node, v, ConfirmStep(b)).Some? <==> !Wraps(Flat(v.queue), TxsOf(b))
    ensures Execute(node, v, ConfirmStep(b)).Some? ==> Inv(node, Execute(node, v, ConfirmStep(b)).value)
  {
    hide Increasing, Wraps, Executable;
    assert Extends(Head(v), Flat(v.queue), TxsOf(b));
    AcceptedBlocksIncrease(Head(v), Flat(v.queue), TxsOf(b));
    ConfirmKeepsInv(node, v, b);
  }

  lemma StepMeans(node: Node, v: View, b: Block)
    requires v.chain != [] && Confirmable(node, v, b)
    ensures Execute(node, v, ConfirmStep(b)) == if Increasing(Flat(v.queue), TxsOf(b)) then Some(Confirm(v, b))
                                                else None
  {
  }

  lemma ConfirmableDecodes(node: Node, v: View, b: Block)
    requires v.chain != [] && Confirmable(node, v, b)
    ensures !b.payload.Garbage?
  {
  }

  /** Main theorem: whatever VerifyBlock accepted can be executed. From any state satisfying the invariant, in
      particular from any chain with nothing undelivered, an interleaving of confirmations and deliveries goes
      through without a panic if and only if no confirmation wraps a nonce; a delivery never panics. */
  lemma {:induction false} RunsNeverPanic(node: Node, v: View, run: seq<Step>)
    requires WellBehaved(node) && Inv(node, v) && IsRun(node, v, run)
    ensures Completes(node, v, run) <==> NeverWraps(node, v, run)
    decreases |run|
  {
    if run != [] {
      match run[0] {
        case ConfirmStep(b) => ConfirmStepGoes(node, v, b);
        case DeliverStep => DeliverKeepsInv(node, v);
      }
      if Execute(node, v, run[0]).Some? {
        RunsNeverPanic(node, Execute(node, v, run[0]).value, run[1..]);
      }
    }
  }

  ghost predicate BelowLastNonce(txs: seq<Tx>) {
    forall i :: 0 <= i < |txs| ==> txs[i].nonce < MAX_UINT64
  }

  /** No wrap without a transaction at the last nonce. */
  lemma NoWrapBelowLast(w: World, before: seq<Tx>, txs: seq<Tx>)
    requires Executable(w, before) && Extends(w, before, txs) && BelowLastNonce(before) && BelowLastNonce(txs)
    ensures !Wraps(before, txs)
  {
    hide Fits, Count, LastNonce;
    forall i | 0 <= i < |txs| && Count(before + txs[..i], txs[i].from) > 0
      ensures txs[i].nonce != 0
    {
      var p, a := before + txs[..i], txs[i].from;
      ExtendsPrefix(w, before, txs, i);
      ExtendsIsConcat(w, before, txs[..i]);
      LastBeforeNext(w, p, a);
      LastNonceIsThere(p, a);
      assert txs[i].nonce == NextNonce(w, p, a) by { FitsNonce(w, p, txs[i]); }
    }
  }

  /** So every run over nonces below the last one completes. */
  lemma {:induction false} RunsBelowLastNonceComplete(node: Node, v: View, run: seq<Step>)
    requires WellBehaved(node) && Inv(node, v) && IsRun(node, v, run) && BelowLastNonce(Flat(v.queue))
    requires forall i :: 0 <= i < |run| && run[i].ConfirmStep? ==> BelowLastNonce(TxsOf(run[i].block))
    ensures Completes(node, v, run)
    decreases |run|
  {
    hide Inv, Wraps, WellBehaved;
    if run != [] {
      match run[0] {
        case ConfirmStep(b) =>
          assert b == run[0].block;
          InvMeans(node, v, b);
          NoWrapBelowLast(Head(v), Flat(v.queue), TxsOf(b));
          ConfirmStepGoes(node, v, b);
          FlatSnoc(v.queue, b);
        case DeliverStep =>
          DeliverKeepsInv(node, v);
          assert Flat(v.queue) == TxsOf(v.queue[0]) + Flat(v.queue[1..]);
          BelowLastTail(TxsOf(v.queue[0]), Flat(v.queue[1..]));
      }
      var v' := Execute(node, v, run[0]).value;
      forall i | 0 <= i < |run[1..]| && run[1..][i].ConfirmStep?
        ensures BelowLastNonce(TxsOf(run[1..][i].block))
      {
        assert run[1..][i] == run[i + 1];
      }
      RunsBelowLastNonceComplete(node, v', run[1..]);
    }
  }

  lemma BelowLastTail(p: seq<Tx>, q: seq<Tx>)
    requires BelowLastNonce(p + q)
    ensures BelowLastNonce(q)
  {
    forall i | 0 <= i < |q|
      ensures q[i].nonce < MAX_UINT64
    {
      assert (p + q)[|p| + i] == q[i];
    }
  }

  lemma InvMeans(node: Node, v: View, b: Block)
    requires Inv(node, v) && Confirmable(node, v, b)
    ensures Executable(Head(v), Flat(v.queue)) && Extends(Head(v), Flat(v.queue), TxsOf(b))
  {
  }

  lemma FitsNonce(w: World, p: seq<Tx>, t: Tx)
    requires Fits(w, p, t)
    ensures t.nonce == NextNonce(w, p, t.from)
  {
  }

  lemma {:induction false} LastNonceIsThere(txs: seq<Tx>, a: Address)
    requires Count(txs, a) > 0
    ensures exists i :: 0 <= i < |txs| && txs[i].nonce == LastNonce(txs, a)
  {
    var n := |txs| - 1;
    if txs[n].from != a {
      LastNonceIsThere(txs[..n], a);
      var i :| 0 <= i < n && txs[..n][i].nonce == LastNonce(txs[..n], a);
      assert txs[i].nonce == LastNonce(txs, a);
    } else {
      assert txs[n].nonce == LastNonce(txs, a);
    }
  }

  lemma StartIsGood(node: Node, chain: seq<ChainBlock>)
    requires chain != []
    ensures Inv(node, View(chain, []))
  {
  }

  /******* An accepted block stays accepted *******/

  /** What processing does to one externally owned account. */
  lemma {:induction false} ProcessEffect(env: Env, external: Address -> bool, w: World, gp: uint64, used: uint64,
                                         txs: seq<Tx>, a: Address)
    requires Faithful(env, external) && AllExternal(external, txs) && external(a)
    requires ProcessFrom(env, w, gp, used, txs).Done?
    ensures var w' := ProcessFrom(env, w, gp, used, txs).world;
            && NonceOf(w', a) == Advance(NonceOf(w, a), txs, a)
            && BalanceOf(w', a) + Spend(txs, a) >= BalanceOf(w, a)
    decreases |txs|
  {
    if txs != [] {
      var t := txs[0];
      assert txs == [t] + txs[1..];
      var o := Transition(env, w, gp, t);
      assert external(txs[0].from);
      AppliedEffect(env, external, w, gp, t);
      ExternalConcat(external, [t], txs[1..]);
      ProcessEffect(env, external, o.world, o.pool, Add64(used, o.used), txs[1..], a);
      Concat([t], txs[1..], a);
      AdvanceConcat(NonceOf(w, a), [t], txs[1..], a);
      assert [] + [t] == [t];
      Snoc([], t, a);
      AdvanceSnoc(NonceOf(w, a), [], t, a);
    }
  }

  /** Delivery changes neither the next expected height nor any expected nonce, and no available
      balance (balance minus undelivered cost) shrinks. */
  lemma DeliveryKeepsExpectations(node: Node, v: View, a: Address)
    requires WellBehaved(node) && Inv(node, v) && v.queue != []
    requires node.gov(v.queue[0].round).Some? && node.external(a)
    ensures Deliver(node, v).Delivered?
    ensures var v' := Deliver(node, v).view;
            && v'.chain != []
            && NextHeight(v') == NextHeight(v)
            && NextNonce(Head(v'), Flat(v'.queue), a) == NextNonce(Head(v), Flat(v.queue), a)
            && BalanceOf(Head(v'), a) - Spend(Flat(v'.queue), a) >= BalanceOf(Head(v), a) - Spend(Flat(v.queue), a)
  {
    DeliverKeepsInv(node, v);
    var b := v.queue[0];
    var front, rest := TxsOf(b), Flat(v.queue[1..]);
    assert QueuedBlockOk(node, v, b);
    assert Flat(v.queue) == front + rest;
    ExternalConcat(node.external, front, rest);
    Concat(front, rest, a);
    AdvanceConcat(NonceOf(Head(v), a), front, rest, a);
    if !b.isEmpty {
      ProcessEffect(node.env, node.external, Head(v), MAX_UINT64, 0, front, a);
    }
  }

  /** A block accepted before the oldest confirmed block is delivered is accepted after it. */
  lemma VerdictIsStable(node: Node, v: View, b: Block)
    requires WellBehaved(node) && Inv(node, v) && v.queue != []
    requires node.gov(v.queue[0].round).Some?
    requires Verdict(node, v, b) == VerifyOK && AllExternal(node.external, TxsOf(b))
    ensures Deliver(node, v).Delivered? && Deliver(node, v).view.chain != []
    ensures Verdict(node, Deliver(node, v).view, b) == VerifyOK
  {
    ExtendsIsConcat(Head(v), Flat(v.queue), TxsOf(b));
    DeliveryLeavesExecutable(node, v, TxsOf(b));
    var v' := Deliver(node, v).view;
    ExtendsIsConcat(Head(v'), Flat(v'.queue), TxsOf(b));
    assert v'.chain[b.witnessHeight] == v.chain[b.witnessHeight];
  }

  /** A block VerifyBlock accepts has the same receipts and used gas whether it is executed on the
      local path (pool of 2^64-1) or imported (pool of the block gas limit), from whatever state
      it is finally executed; neither pool runs out. */
  lemma LocalAndImportAgree(node: Node, v: View, b: Block, w: World)
    requires v.chain != [] && Verdict(node, v, b) == VerifyOK && b.payload.Txs?
    ensures var limit := node.gov(b.round).value.blockGasLimit;
            var local := ProcessFrom(node.env, w, MAX_UINT64, 0, TxsOf(b));
            var imported := ProcessFrom(node.env, w, limit, 0, TxsOf(b));
            && (local.Done? <==> imported.Done?)
            && (local.Done? ==> local.world == imported.world && local.receipts == imported.receipts &&
                                local.used == imported.used)
            && (local.Failed? ==> local == imported && local.error != GasLimitReached)
  {
    PoolDoesNotMatter(node.env, w, MAX_UINT64, node.gov(b.round).value.blockGasLimit, 0, TxsOf(b));
  }
}
