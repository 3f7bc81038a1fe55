/** Executing a block's transactions in order (core/state_processor.go, the loop of
    processBlock and SetReceiptsData in core/blockchain.go). */
module Processor {
  import opened Types
  import opened Gas

  /** The gas fields of a receipt. */
  datatype Receipt = Receipt(cumulative: uint64, gasUsed: uint64, failed: bool)

  datatype Processed =
    | Done(world: World, receipts: seq<Receipt>, used: uint64, pool: uint64)
    | Failed(error: TxError)

  function Add64(a: uint64, b: uint64): uint64 {
    (a + b) % U64
  }

  function Sub64(a: uint64, b: uint64): uint64 {
    (a - b) % U64
  }

  /** Gas limits of a run of transactions, added up. */
  function GasSum(txs: seq<Tx>): nat {
    if txs == [] then 0 else txs[0].gas + GasSum(txs[1..])
  }

  function Prepend(receipts: seq<Receipt>, p: Processed): Processed {
    match p
    case Done(w, rs, used, pool) => Done(w, receipts + rs, used, pool)
    case Failed(e) => Failed(e)
  }

  /** Apply the transactions one after the other, stopping at the first that is rejected. */
  function ProcessFrom(env: Env, w: World, gp: uint64, used: uint64, txs: seq<Tx>): Processed
    decreases |txs|
  {
    if txs == [] then Done(w, [], used, gp)
    else
      match Transition(env, w, gp, txs[0])
      case Rejected(e) => Failed(e)
      case Applied(w1, gp1, u, f) =>
        Prepend([Receipt(Add64(used, u), u, f)], ProcessFrom(env, w1, gp1, Add64(used, u), txs[1..]))
  }

  /** The loop, with one gas pool for the block and one transition object per transaction.
      The local path calls it with a pool of 2^64-1, the import path with the block limit. */
  method Process(env: Env, w: World, limit: uint64, txs: seq<Tx>) returns (r: Processed)
    ensures r == ProcessFrom(env, w, limit, 0, txs)
  {
    var gp := new GasPool(limit);
    var world, used: uint64, receipts := w, 0, [];
    for i := 0 to |txs|
      invariant ProcessFrom(env, w, limit, 0, txs) ==
                Prepend(receipts, ProcessFrom(env, world, gp.value, used, txs[i..]))
    {
      var st := new StateTransition(env, txs[i], gp, world);
      ghost var before := ProcessFrom(env, world, gp.value, used, txs[i..]);
      assert txs[i..][1..] == txs[i + 1..];
      var o := st.TransitionDb();
      if o.Rejected? {
        return Failed(o.error);
      }
      world := st.world;
      used := Add64(used, o.used);
      var receipt := Receipt(used, o.used, o.failed);
      ghost var after := ProcessFrom(env, world, gp.value, used, txs[i + 1..]);
      assert before == Prepend([receipt], after);
      PrependTwice(receipts, [receipt], after);
      receipts := receipts + [receipt];
    }
    r := Done(world, receipts, used, gp.value);
    assert txs[|txs|..] == [];
  }

  lemma PrependTwice(a: seq<Receipt>, b: seq<Receipt>, p: Processed)
    ensures Prepend(a, Prepend(b, p)) == Prepend(a + b, p)
  {
    if p.Done? {
      assert a + (b + p.receipts) == (a + b) + p.receipts;
    }
  }

  /** The world and the pool before the first transaction and after each one. */
  datatype Stages = Stages(worlds: seq<World>, pools: seq<uint64>)

  /** The first transactions are applied one after the other, each from where the one before left off, and each
      receipt reports its own transaction. */
  ghost predicate StepByStep(env: Env, w: World, gp: uint64, txs: seq<Tx>, st: Stages, receipts: seq<Receipt>) {
    && |st.worlds| == |st.pools| == |receipts| + 1 && |receipts| <= |txs|
    && st.worlds[0] == w && st.pools[0] == gp
    && forall i :: 0 <= i < |receipts| ==> StepAt(env, txs[i], st, i, receipts[i])
  }

  ghost predicate StepAt(env: Env, t: Tx, st: Stages, i: nat, receipt: Receipt)
    requires i + 1 < |st.worlds| == |st.pools|
  {
    Transition(env, st.worlds[i], st.pools[i], t) ==
    Applied(st.worlds[i + 1], st.pools[i + 1], receipt.gasUsed, receipt.failed)
  }

  /** A cumulative total is the one before plus the receipt's own gas, in 64 bits. */
  ghost predicate AddsUp(used: uint64, receipts: seq<Receipt>, i: nat)
    requires i < |receipts|
  {
    receipts[i].cumulative == ((if i == 0 then used else receipts[i - 1].cumulative) + receipts[i].gasUsed) % U64
  }

  /** A block that goes through applies all its transactions, one receipt each; one that fails does so at the first
      transaction that is rejected, with its error. */
  lemma {:induction false} ProcessedStepByStep(env: Env, w: World, gp: uint64, used: uint64, txs: seq<Tx>)
    returns (st: Stages, receipts: seq<Receipt>)
    ensures StepByStep(env, w, gp, txs, st, receipts)
    ensures var p, n := ProcessFrom(env, w, gp, used, txs), |receipts|;
            && (p.Done? ==> n == |txs| && receipts == p.receipts && p.world == st.worlds[n] && p.pool == st.pools[n])
            && (p.Failed? ==> n < |txs| && Transition(env, st.worlds[n], st.pools[n], txs[n]) == Rejected(p.error))
    ensures forall i :: 0 <= i < |receipts| ==> AddsUp(used, receipts, i)
    decreases |txs|
  {
    hide Transition, StepAt, AddsUp;
    st, receipts := Stages([w], [gp]), [];
    if txs != [] {
      var o := Transition(env, w, gp, txs[0]);
      if o.Applied? {
        var first := Receipt(Add64(used, o.used), o.used, o.failed);
        var rest, more := ProcessedStepByStep(env, o.world, o.pool, Add64(used, o.used), txs[1..]);
        st, receipts := Stages([w] + rest.worlds, [gp] + rest.pools), [first] + more;
        StepInFront(env, w, gp, txs, rest, first, more);
        AddsUpInFront(used, first, more);
      }
    }
  }

  lemma StepInFront(env: Env, w: World, gp: uint64, txs: seq<Tx>, rest: Stages, first: Receipt, more: seq<Receipt>)
    requires txs != [] && rest.worlds != [] && rest.pools != []
    requires Transition(env, w, gp, txs[0]) == Applied(rest.worlds[0], rest.pools[0], first.gasUsed, first.failed)
    requires StepByStep(env, rest.worlds[0], rest.pools[0], txs[1..], rest, more)
    ensures StepByStep(env, w, gp, txs, Stages([w] + rest.worlds, [gp] + rest.pools), [first] + more)
  {
    hide Transition;
    var st, receipts := Stages([w] + rest.worlds, [gp] + rest.pools), [first] + more;
    forall i | 0 <= i < |receipts|
      ensures StepAt(env, txs[i], st, i, receipts[i])
    {
      if i > 0 {
        assert StepAt(env, txs[1..][i - 1], rest, i - 1, more[i - 1]);
      }
    }
  }

  lemma AddsUpInFront(used: uint64, first: Receipt, more: seq<Receipt>)
    requires first.cumulative == Add64(used, first.gasUsed)
    requires forall i :: 0 <= i < |more| ==> AddsUp(first.cumulative, more, i)
    ensures forall i :: 0 <= i < |[first] + more| ==> AddsUp(used, [first] + more, i)
  {
    forall i | 0 <= i < |[first] + more|
      ensures AddsUp(used, [first] + more, i)
    {
      if i > 0 {
        assert AddsUp(first.cumulative, more, i - 1);
      }
    }
  }

  /** What the receipts of a processed block look like: running totals that start at `used`,
      never wrap, and account for exactly the gas taken from the pool. */
  ghost predicate Running(used: nat, receipts: seq<Receipt>)
    decreases |receipts|
  {
    receipts == [] ||
    (receipts[0].cumulative == used + receipts[0].gasUsed && Running(receipts[0].cumulative, receipts[1..]))
  }

  lemma {:induction false} ReceiptsAccountForPool(env: Env, w: World, gp: uint64, used: uint64, txs: seq<Tx>)
    requires used + gp < U64
    ensures var p := ProcessFrom(env, w, gp, used, txs);
            p.Done? ==> && |p.receipts| == |txs| && Running(used, p.receipts)
                        && used <= p.used && p.used - used == gp - p.pool <= GasSum(txs)
    decreases |txs|
  {
    hide Transition;
    if txs != [] {
      var o := Transition(env, w, gp, txs[0]);
      if o.Applied? {
        PoolPaysGasUsed(env, w, gp, txs[0]);
        ReceiptsAccountForPool(env, o.world, o.pool, Add64(used, o.used), txs[1..]);
      }
    }
  }

  /** Once both pools hold the block's gas limits, the pool does not matter: the same receipts,
      world and used gas, or the same error, and never an exhausted pool. */
  lemma {:induction false} PoolDoesNotMatter(env: Env, w: World, gpA: uint64, gpB: uint64, used: uint64, txs: seq<Tx>)
    requires GasSum(txs) <= gpA && GasSum(txs) <= gpB
    ensures var a, b := ProcessFrom(env, w, gpA, used, txs), ProcessFrom(env, w, gpB, used, txs);
            && (a.Done? <==> b.Done?)
            && (a.Done? ==> a.world == b.world && a.receipts == b.receipts && a.used == b.used)
            && (a.Failed? ==> a == b && a.error != GasLimitReached)
    decreases |txs|
  {
    hide Transition;
    if txs != [] {
      var a, b := Transition(env, w, gpA, txs[0]), Transition(env, w, gpB, txs[0]);
      PoolOnlyPays(env, w, gpA, gpB, txs[0]);
      if a.Applied? {
        PoolDoesNotMatter(env, a.world, a.pool, b.pool, Add64(used, a.used), txs[1..]);
      }
    }
  }

  /** Currency created (or destroyed) by the EVM runs of a block alone. */
  ghost function EvmDrift(env: Env, w: World, gp: uint64, txs: seq<Tx>): int
    decreases |txs|
  {
    if txs == [] then 0
    else
      var o := Transition(env, w, gp, txs[0]);
      if o.Rejected? then 0
      else
        var drift := Total(RunMessage(env, w, txs[0]).world) - Total(Charged(w, txs[0]));
        drift + EvmDrift(env, o.world, o.pool, txs[1..])
  }

  /** Gas accounting conserves currency over a whole block. */
  lemma {:induction false} BlockConserves(env: Env, w: World, gp: uint64, used: uint64, txs: seq<Tx>)
    ensures var p := ProcessFrom(env, w, gp, used, txs);
            p.Done? ==> Total(p.world) == Total(w) + EvmDrift(env, w, gp, txs)
    decreases |txs|
  {
    if txs != [] {
      var o := Transition(env, w, gp, txs[0]);
      if o.Applied? {
        TransitionConserves(env, w, gp, txs[0]);
        BlockConserves(env, o.world, o.pool, Add64(used, o.used), txs[1..]);
      }
    }
  }

  /** What `SetReceiptsData` writes into the gas field of receipt `j`. */
  function DerivedGas(receipts: seq<Receipt>, j: nat): uint64
    requires j < |receipts|
  {
    if j == 0 then receipts[0].cumulative else Sub64(receipts[j].cumulative, receipts[j - 1].cumulative)
  }

  /** `SetReceiptsData` in place. Cumulative totals are left alone and every gas field is
      recomputed from them; a count mismatch changes nothing. */
  method SetReceiptsData(receipts: array<Receipt>, transactions: nat) returns (ok: bool)
    modifies receipts
    ensures ok <==> transactions == receipts.Length
    ensures !ok ==> receipts[..] == old(receipts[..])
    ensures ok ==> forall j :: 0 <= j < receipts.Length ==>
                receipts[j] == old(receipts[j]).(gasUsed := DerivedGas(old(receipts[..]), j))
    ensures ok ==> forall j :: 0 <= j < receipts.Length ==> AddsUp(0, receipts[..], j)
  {
    if transactions != receipts.Length {
      return false;
    }
    for j := 0 to receipts.Length
      invariant forall k :: j <= k < receipts.Length ==> receipts[k] == old(receipts[k])
      invariant forall k :: 0 <= k < j ==>
                  receipts[k] == old(receipts[k]).(gasUsed := DerivedGas(old(receipts[..]), k))
    {
      if j == 0 {
        receipts[j] := receipts[j].(gasUsed := receipts[j].cumulative);
      } else {
        receipts[j] := receipts[j].(gasUsed := Sub64(receipts[j].cumulative, receipts[j - 1].cumulative));
      }
    }
    forall j | 0 <= j < receipts.Length
      ensures AddsUp(0, receipts[..], j)
    {
      if j > 0 {
        SubThenAdd(receipts[j].cumulative, receipts[j - 1].cumulative);
      }
    }
    return true;
  }

  lemma SubThenAdd(a: uint64, b: uint64)
    ensures (b + Sub64(a, b)) % U64 == a
  {
  }

  /** The gas of every receipt is recovered from the running totals alone. */
  lemma {:induction false} DerivedGasIsGasUsed(used: uint64, receipts: seq<Receipt>, j: nat)
    requires Running(used, receipts) && j < |receipts|
    ensures j == 0 ==> receipts[0].cumulative - used == receipts[0].gasUsed
    ensures j > 0 ==> DerivedGas(receipts, j) == receipts[j].gasUsed
    decreases j
  {
    if j > 0 {
      DerivedGasIsGasUsed(receipts[0].cumulative, receipts[1..], j - 1);
    }
  }

  /** Round trip: erasing the gas fields of a processed block's receipts and deriving them again
      gives the receipts the execution produced. */
  lemma ReceiptsRoundTrip(env: Env, w: World, gp: uint64, txs: seq<Tx>, j: nat)
    requires var p := ProcessFrom(env, w, gp, 0, txs); p.Done? && j < |p.receipts|
    ensures var p := ProcessFrom(env, w, gp, 0, txs);
            DerivedGas(p.receipts, j) == p.receipts[j].gasUsed
  {
    ReceiptsAccountForPool(env, w, gp, 0, txs);
    DerivedGasIsGasUsed(0, ProcessFrom(env, w, gp, 0, txs).receipts, j);
  }
}
