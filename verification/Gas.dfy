/** Gas accounting of one message (core/state_transition.go, core/gaspool.go).
    The EVM itself is a parameter: a function from the world and the gas it is given to
    the world it leaves, the gas it consumed, its refund counter and whether it failed. */
module Gas {
  import opened Types

  /******* World state *******/

  datatype Account = Account(nonce: uint64, balance: nat)
  type World = map<Address, Account>

  function NonceOf(w: World, a: Address): uint64 {
    if a in w then w[a].nonce else 0
  }

  function BalanceOf(w: World, a: Address): nat {
    if a in w then w[a].balance else 0
  }

  function AddBalance(w: World, a: Address, amount: nat): World {
    w[a := Account(NonceOf(w, a), BalanceOf(w, a) + amount)]
  }

  function SubBalance(w: World, a: Address, amount: nat): World
    requires amount <= BalanceOf(w, a)
  {
    w[a := Account(NonceOf(w, a), BalanceOf(w, a) - amount)]
  }

  function BumpNonce(w: World, a: Address): World {
    w[a := Account(Inc(NonceOf(w, a)), BalanceOf(w, a))]
  }

  ghost function PickAccount(w: World): Address
    requires w != map[]
  {
    assert w.Keys != {};
    var a :| a in w; a
  }

  /** All the currency in a world. */
  ghost function Total(w: World): nat {
    if w == map[] then 0
    else
      var a := PickAccount(w);
      w[a].balance + Total(w - {a})
  }

  lemma {:induction false} TotalRemove(w: World, a: Address)
    requires a in w
    ensures Total(w) == w[a].balance + Total(w - {a})
  {
    var b := PickAccount(w);
    if a != b {
      TotalRemove(w - {b}, a);
      TotalRemove(w - {a}, b);
      assert w - {b} - {a} == w - {a} - {b};
    }
  }

  /** Replacing one account changes the total by the difference of its balances. */
  lemma TotalUpdate(w: World, a: Address, acct: Account)
    ensures Total(w[a := acct]) == Total(w) - BalanceOf(w, a) + acct.balance
  {
    var w' := w[a := acct];
    TotalRemove(w', a);
    assert w' - {a} == w - {a};
    if a in w {
      TotalRemove(w, a);
    } else {
      assert w - {a} == w;
    }
  }

  /******* Intrinsic gas *******/

  const TX_GAS: nat := 21000
  const TX_GAS_CONTRACT_CREATION: nat := 53000
  const TX_DATA_ZERO_GAS: nat := 4
  const TX_DATA_NON_ZERO_GAS: nat := 68

  function BaseGas(create: bool, homestead: bool): nat {
    if create && homestead then TX_GAS_CONTRACT_CREATION else TX_GAS
  }

  /** The charge for calldata, byte by byte. */
  function DataGas(data: seq<byte>): nat {
    if data == [] then 0
    else DataGas(data[..|data| - 1]) +
         if data[|data| - 1] != 0 then TX_DATA_NON_ZERO_GAS else TX_DATA_ZERO_GAS
  }

  /** The intrinsic gas of a message if it fits a 64-bit word. */
  function IntrinsicGas(data: seq<byte>, create: bool, homestead: bool): Option<uint64> {
    var g := BaseGas(create, homestead) + DataGas(data);
    if g < U64 then Some(g) else None
  }

  /** The source's counting loop and its two overflow guards. They reject exactly the
      messages whose true intrinsic gas does not fit 64 bits. */
  method ComputeIntrinsicGas(data: seq<byte>, create: bool, homestead: bool) returns (r: Option<uint64>)
    requires |data| < U64
    ensures r == IntrinsicGas(data, create, homestead)
  {
    var gas: uint64 := if create && homestead then TX_GAS_CONTRACT_CREATION else TX_GAS;
    if |data| > 0 {
      var nz: uint64 := 0;
      for i := 0 to |data|
        invariant 0 <= nz <= i
        invariant DataGas(data[..i]) == nz * TX_DATA_NON_ZERO_GAS + (i - nz) * TX_DATA_ZERO_GAS
      {
        assert data[..i + 1][..i] == data[..i];
        if data[i] != 0 {
          nz := nz + 1;
        }
      }
      assert data[..|data|] == data;
      if (MAX_UINT64 - gas) / TX_DATA_NON_ZERO_GAS < nz {
        return None;
      }
      gas := gas + nz * TX_DATA_NON_ZERO_GAS;
      var z: uint64 := |data| - nz;
      if (MAX_UINT64 - gas) / TX_DATA_ZERO_GAS < z {
        return None;
      }
      gas := gas + z * TX_DATA_ZERO_GAS;
    }
    return Some(gas);
  }

  /** The positions of the zero and of the other bytes. */
  ghost function BytePositions(data: seq<byte>, zero: bool): set<nat> {
    set i: nat | i < |data| && (data[i] == 0) == zero
  }

  lemma PositionsSnoc(front: seq<byte>, b: byte, zero: bool)
    ensures |BytePositions(front + [b], zero)| == |BytePositions(front, zero)| + if (b == 0) == zero then 1 else 0
  {
    var k, before, after := |front|, BytePositions(front, zero), BytePositions(front + [b], zero);
    if (b == 0) == zero {
      assert after == before + {k};
    } else {
      assert after == before;
    }
  }

  lemma {:induction false} DataGasByPositions(data: seq<byte>)
    ensures DataGas(data) == 4 * |BytePositions(data, true)| + 68 * |BytePositions(data, false)|
  {
    hide BytePositions;
    if data == [] {
      NoPositions();
    } else {
      var front, b := data[..|data| - 1], data[|data| - 1];
      assert data == front + [b];
      DataGasByPositions(front);
      PositionsSnoc(front, b, true);
      PositionsSnoc(front, b, false);
    }
  }

  lemma NoPositions()
    ensures BytePositions([], true) == {} && BytePositions([], false) == {}
  {
  }

  /** In numbers: 21000, or 53000 for a creation under Homestead, and 4 for each zero and 68 for each other byte. */
  lemma IntrinsicGasInNumbers(data: seq<byte>, create: bool, homestead: bool)
    ensures var g := (if create && homestead then 53000 else 21000)
                     + 4 * |BytePositions(data, true)| + 68 * |BytePositions(data, false)|;
            IntrinsicGas(data, create, homestead) == if g <= MAX_UINT64 then Some(g) else None
  {
    DataGasByPositions(data);
  }

  /** Whether a transaction's gas limit covers its intrinsic gas. */
  predicate CoversIntrinsic(t: Tx, homestead: bool) {
    var g := IntrinsicGas(t.data, t.to.None?, homestead);
    g.Some? && g.value <= t.gas
  }

  /** Checking under the Homestead rule is the stricter check. */
  lemma HomesteadIsStricter(t: Tx, homestead: bool)
    requires CoversIntrinsic(t, true)
    ensures CoversIntrinsic(t, homestead)
  {
  }

  /******* The block gas pool *******/

  class GasPool {
    var value: uint64

    constructor (amount: uint64)
      ensures value == amount
    {
      value := amount;
    }

    /** Returns whether the source would go on; it panics exactly on overflow. */
    method AddGas(amount: uint64) returns (ok: bool)
      modifies this
      ensures ok <==> old(value) + amount <= MAX_UINT64
      ensures value == if ok then old(value) + amount else old(value)
    {
      if value > MAX_UINT64 - amount {
        return false;
      }
      value := value + amount;
      return true;
    }

    method SubGas(amount: uint64) returns (ok: bool)
      modifies this
      ensures ok <==> amount <= old(value)
      ensures value == if ok then old(value) - amount else old(value)
    {
      if value < amount {
        return false;
      }
      value := value - amount;
      return true;
    }
  }

  /******* One state transition *******/

  /** What `evm.Call` or `evm.Create` reports: it consumes at most the gas it was given. */
  datatype RunResult = RunResult(world: World, consumed: nat, refund: nat, failed: bool)
  type Machine = (World, Tx, nat) -> RunResult

  /** The parts of the execution environment that are not modelled further. */
  datatype Env = Env(run: Machine, receiver: (World, Tx) -> Address, legacy: bool, homestead: bool)

  datatype TxError =
    | NonceTooHigh
    | NonceTooLow
    | InsufficientBalanceForGas
    | GasLimitReached
    | OutOfGas
    | InsufficientBalance

  datatype Outcome =
    | Applied(world: World, pool: uint64, used: uint64, failed: bool)
    | Rejected(error: TxError)

  function GasLeft(given: nat, r: RunResult): nat {
    if r.consumed <= given then given - r.consumed else 0
  }

  /** Gas handed back to the sender and the pool. The legacy rule returns what is left plus
      the capped refund, the Tangerine rule the capped refund alone. */
  function GasReturned(legacy: bool, initial: nat, left: nat, counter: nat): (back: nat)
    requires left <= initial
    ensures back <= initial
    ensures !legacy ==> back <= initial / 2
    ensures legacy ==> left <= back
  {
    var half := (initial - left) / 2;
    var refund := if half > counter then counter else half;
    if legacy then left + refund else refund
  }

  /** The world handed to the EVM: gas is paid for and the nonce is bumped. */
  function Charged(w: World, t: Tx): World
    requires FeeCap(t) <= BalanceOf(w, t.from)
  {
    BumpNonce(SubBalance(w, t.from, FeeCap(t)), t.from)
  }

  function RunMessage(env: Env, w: World, t: Tx): RunResult
    requires FeeCap(t) <= BalanceOf(w, t.from) && CoversIntrinsic(t, env.homestead)
  {
    env.run(Charged(w, t), t, t.gas - IntrinsicGas(t.data, t.to.None?, env.homestead).value)
  }

  function Returned(env: Env, w: World, t: Tx): (back: uint64)
    requires FeeCap(t) <= BalanceOf(w, t.from) && CoversIntrinsic(t, env.homestead)
    ensures back <= t.gas
  {
    var r := RunMessage(env, w, t);
    var given := t.gas - IntrinsicGas(t.data, t.to.None?, env.homestead).value;
    GasReturned(env.legacy, t.gas, GasLeft(given, r), r.refund)
  }

  /** Refund the sender, then pay the fee receiver. */
  function Settle(env: Env, w: World, t: Tx, back: uint64): World
    requires back <= t.gas
  {
    var w1 := AddBalance(w, t.from, Fee(back, t.price));
    AddBalance(w1, env.receiver(w1, t), Fee(t.gas - back, t.price))
  }

  /** `TransitionDb` as a function: every check in the source's order. */
  function Transition(env: Env, w: World, gp: uint64, t: Tx): Outcome {
    if NonceOf(w, t.from) < t.nonce then Rejected(NonceTooHigh)
    else if NonceOf(w, t.from) > t.nonce then Rejected(NonceTooLow)
    else if BalanceOf(w, t.from) < FeeCap(t) then Rejected(InsufficientBalanceForGas)
    else if gp < t.gas then Rejected(GasLimitReached)
    else if !CoversIntrinsic(t, env.homestead) then Rejected(OutOfGas)
    else if BalanceOf(Charged(w, t), t.from) < t.value then Rejected(InsufficientBalance)
    else
      var r := RunMessage(env, w, t);
      var back := Returned(env, w, t);
      Applied(Settle(env, r.world, t, back), gp - t.gas + back, t.gas - back, r.failed)
  }

  /** A message is applied exactly when its nonce is the sender's, the sender can pay gas and
      value, the pool has the gas and the limit covers the intrinsic gas. */
  lemma AppliedExactlyWhen(env: Env, w: World, gp: uint64, t: Tx)
    ensures Transition(env, w, gp, t).Applied? <==>
            && t.nonce == NonceOf(w, t.from)
            && Cost(t) <= BalanceOf(w, t.from)
            && t.gas <= gp
            && CoversIntrinsic(t, env.homestead)
  {
  }

  /** The pool shrinks by exactly the gas reported, which never exceeds the limit. */
  lemma PoolPaysGasUsed(env: Env, w: World, gp: uint64, t: Tx)
    requires Transition(env, w, gp, t).Applied?
    ensures var o := Transition(env, w, gp, t);
            o.used <= t.gas && o.pool + o.used == gp && (!env.legacy ==> 2 * o.used >= t.gas)
  {
  }

  /** Two pools that both hold the gas limit lead to the same result. */
  lemma PoolOnlyPays(env: Env, w: World, gpA: uint64, gpB: uint64, t: Tx)
    requires t.gas <= gpA && t.gas <= gpB
    ensures var a, b := Transition(env, w, gpA, t), Transition(env, w, gpB, t);
            && (a.Applied? <==> b.Applied?)
            && (a.Applied? ==> a.world == b.world && a.used == b.used && a.failed == b.failed &&
                               a.used <= t.gas && a.pool + a.used == gpA && b.pool + b.used == gpB)
            && (a.Rejected? ==> a == b && a.error != GasLimitReached)
  {
  }

  /** The message runs on a world in which its sender has paid for the whole gas limit and has the next nonce, with
      the gas limit less the intrinsic gas. */
  lemma RunsOnChargedWorld(env: Env, w: World, t: Tx)
    requires FeeCap(t) <= BalanceOf(w, t.from) && CoversIntrinsic(t, env.homestead)
    ensures exists g: nat ::
              && IntrinsicGas(t.data, t.to.None?, env.homestead) == Some(t.gas - g)
              && RunMessage(env, w, t) == env.run(Charged(w, t), t, g)
    ensures BalanceOf(Charged(w, t), t.from) == BalanceOf(w, t.from) - t.gas * t.price
    ensures NonceOf(Charged(w, t), t.from) == (NonceOf(w, t.from) + 1) % U64
    ensures forall a :: a != t.from ==>
              BalanceOf(Charged(w, t), a) == BalanceOf(w, a) && NonceOf(Charged(w, t), a) == NonceOf(w, a)
  {
    var intrinsic := IntrinsicGas(t.data, t.to.None?, env.homestead).value;
    var g: nat := t.gas - intrinsic;
    assert IntrinsicGas(t.data, t.to.None?, env.homestead) == Some(t.gas - g);
    assert RunMessage(env, w, t) == env.run(Charged(w, t), t, g);
  }

  /** The gas reported, in numbers: half of what was spent at most comes back for the refund counter. Under the
      Tangerine rule what the run left over is not handed back. */
  lemma GasUsedInNumbers(env: Env, w: World, gp: uint64, t: Tx)
    requires Transition(env, w, gp, t).Applied?
    ensures var r, intrinsic := RunMessage(env, w, t), IntrinsicGas(t.data, t.to.None?, env.homestead).value;
            var spent := if intrinsic + r.consumed <= t.gas then intrinsic + r.consumed else t.gas;
            var refund := if r.refund <= spent / 2 then r.refund else spent / 2;
            && Transition(env, w, gp, t).used == (if env.legacy then spent else t.gas) - refund
            && Transition(env, w, gp, t).failed == r.failed
  {
  }

  /** Who is paid: the sender gets the unused gas back, the fee receiver the price of the gas used, nobody else
      anything beyond what the run did, and no nonce changes after the run. */
  lemma AppliedPays(env: Env, w: World, gp: uint64, t: Tx)
    requires Transition(env, w, gp, t).Applied?
    ensures var o, ran := Transition(env, w, gp, t), RunMessage(env, w, t).world;
            var back, fee := (t.gas - o.used) * t.price, o.used * t.price;
            var receiver := env.receiver(ran[t.from := Account(NonceOf(ran, t.from), BalanceOf(ran, t.from) + back)],
                                         t);
            && (receiver != t.from ==>
                  && BalanceOf(o.world, receiver) == BalanceOf(ran, receiver) + fee
                  && BalanceOf(o.world, t.from) == BalanceOf(ran, t.from) + back)
            && (receiver == t.from ==> BalanceOf(o.world, t.from) == BalanceOf(ran, t.from) + t.gas * t.price)
            && (forall a :: a != t.from && a != receiver ==> BalanceOf(o.world, a) == BalanceOf(ran, a))
            && (forall a :: NonceOf(o.world, a) == NonceOf(ran, a))
  {
    var o := Transition(env, w, gp, t);
    Distribute(t.gas - o.used, o.used, t.price);
  }

  lemma Distribute(a: nat, b: nat, p: nat)
    ensures Fee(a, p) + Fee(b, p) == Fee(a + b, p)
  {
  }

  lemma ChargedTotal(w: World, t: Tx)
    requires FeeCap(t) <= BalanceOf(w, t.from)
    ensures Total(Charged(w, t)) == Total(w) - FeeCap(t)
  {
    var paid := SubBalance(w, t.from, FeeCap(t));
    TotalUpdate(w, t.from, paid[t.from]);
    TotalUpdate(paid, t.from, Charged(w, t)[t.from]);
  }

  lemma SettleTotal(env: Env, w: World, t: Tx, back: uint64)
    requires back <= t.gas
    ensures Total(Settle(env, w, t, back)) == Total(w) + FeeCap(t)
  {
    hide Fee, Total;
    var refund, fee := Fee(back, t.price), Fee(t.gas - back, t.price);
    Distribute(back, t.gas - back, t.price);
    var w1 := AddBalance(w, t.from, refund);
    TotalUpdate(w, t.from, w1[t.from]);
    var receiver := env.receiver(w1, t);
    TotalUpdate(w1, receiver, Account(NonceOf(w1, receiver), BalanceOf(w1, receiver) + fee));
  }

  /** Buying, refunding and paying out gas moves currency but neither creates nor destroys any:
      the total changes by exactly what the EVM run itself changed it. */
  lemma TransitionConserves(env: Env, w: World, gp: uint64, t: Tx)
    requires Transition(env, w, gp, t).Applied?
    ensures Total(Transition(env, w, gp, t).world) - Total(w) ==
            Total(RunMessage(env, w, t).world) - Total(Charged(w, t))
  {
    ChargedTotal(w, t);
    SettleTotal(env, RunMessage(env, w, t).world, t, Returned(env, w, t));
  }

  /******* The object form *******/

  class StateTransition {
    const env: Env
    const msg: Tx
    const gp: GasPool
    var gas: uint64
    var initialGas: uint64
    var world: World

    constructor (env: Env, msg: Tx, gp: GasPool, world: World)
      ensures this.env == env && this.msg == msg && this.gp == gp && this.world == world
      ensures gas == 0 && initialGas == 0
    {
      this.env, this.msg, this.gp, this.world := env, msg, gp, world;
      gas, initialGas := 0, 0;
    }

    method UseGas(amount: uint64) returns (ok: bool)
      modifies this`gas
      ensures ok <==> amount <= old(gas)
      ensures gas == if ok then old(gas) - amount else old(gas)
    {
      if gas < amount {
        return false;
      }
      gas := gas - amount;
      return true;
    }

    method BuyGas() returns (e: Option<TxError>)
      requires gas == 0
      modifies this, gp
      ensures e == if BalanceOf(old(world), msg.from) < FeeCap(msg) then Some(InsufficientBalanceForGas)
                   else if old(gp.value) < msg.gas then Some(GasLimitReached) else None
      ensures e.Some? ==> world == old(world) && gp.value == old(gp.value) && gas == 0
      ensures e.None? ==>
                && world == SubBalance(old(world), msg.from, FeeCap(msg))
                && gp.value == old(gp.value) - msg.gas
                && gas == msg.gas == initialGas
    {
      if BalanceOf(world, msg.from) < FeeCap(msg) {
        return Some(InsufficientBalanceForGas);
      }
      var ok := gp.SubGas(msg.gas);
      if !ok {
        return Some(GasLimitReached);
      }
      gas := gas + msg.gas;
      initialGas := msg.gas;
      world := SubBalance(world, msg.from, FeeCap(msg));
      return None;
    }

    method PreCheck() returns (e: Option<TxError>)
      requires gas == 0
      modifies this, gp
      ensures e == if NonceOf(old(world), msg.from) < msg.nonce then Some(NonceTooHigh)
                   else if NonceOf(old(world), msg.from) > msg.nonce then Some(NonceTooLow)
                   else if BalanceOf(old(world), msg.from) < FeeCap(msg) then Some(InsufficientBalanceForGas)
                   else if old(gp.value) < msg.gas then Some(GasLimitReached) else None
      ensures e.Some? ==> world == old(world) && gp.value == old(gp.value) && gas == 0
      ensures e.None? ==>
                && world == SubBalance(old(world), msg.from, FeeCap(msg))
                && gp.value == old(gp.value) - msg.gas
                && gas == msg.gas == initialGas
    {
      var nonce := NonceOf(world, msg.from);
      if nonce < msg.nonce {
        return Some(NonceTooHigh);
      } else if nonce > msg.nonce {
        return Some(NonceTooLow);
      }
      e := BuyGas();
    }

    function GasUsed(): nat
      reads this
      requires gas <= initialGas
    {
      initialGas - gas
    }

    /** `dexonRefundGas` and `refundGas`: `ok` is false where the source would panic. */
    method RefundGas(counter: nat) returns (ok: bool)
      requires gas <= initialGas
      modifies this, gp
      ensures initialGas == old(initialGas)
      ensures ok <==> old(gp.value) + GasReturned(env.legacy, initialGas, old(gas), counter) <= MAX_UINT64
      ensures gas == GasReturned(env.legacy, initialGas, old(gas), counter)
      ensures world == AddBalance(old(world), msg.from, Fee(gas, msg.price))
      ensures gp.value == if ok then old(gp.value) + gas else old(gp.value)
    {
      var refund := GasUsed() / 2;
      if refund > counter {
        refund := counter;
      }
      gas := if env.legacy then gas + refund else refund;
      world := AddBalance(world, msg.from, Fee(gas, msg.price));
      ok := gp.AddGas(gas);
    }

    /** Run the EVM on the charged world, refund, and pay the fee receiver. */
    method Execute(ghost w: World, ghost pool: uint64) returns (o: Outcome)
      requires FeeCap(msg) <= BalanceOf(w, msg.from) && CoversIntrinsic(msg, env.homestead)
      requires world == Charged(w, msg)
      requires gas == msg.gas - IntrinsicGas(msg.data, msg.to.None?, env.homestead).value
      requires initialGas == msg.gas && gp.value == pool - msg.gas
      modifies this, gp
      ensures o == Applied(Settle(env, RunMessage(env, w, msg).world, msg, Returned(env, w, msg)),
                           pool - msg.gas + Returned(env, w, msg), msg.gas - Returned(env, w, msg),
                           RunMessage(env, w, msg).failed)
      ensures world == o.world && gp.value == o.pool && gas <= initialGas && GasUsed() == o.used
    {
      ghost var back := Returned(env, w, msg);
      var r := env.run(world, msg, gas);
      assert r == RunMessage(env, w, msg);
      world := r.world;
      gas := GasLeft(gas, r);
      assert back == GasReturned(env.legacy, initialGas, gas, r.refund);
      var ok := RefundGas(r.refund);
      assert gas == back && ok;
      var fee := Fee(GasUsed(), msg.price);
      world := AddBalance(world, env.receiver(world, msg), fee);
      assert world == Settle(env, r.world, msg, back);
      return Applied(world, gp.value, GasUsed(), r.failed);
    }

    /** The whole transition. No arithmetic leaves 64 bits and `AddGas` never panics; on success
        the object holds exactly the world and pool `Transition` gives. A rejected message leaves
        nonce failures and unaffordable gas without effect, and later failures after the gas was
        bought. */
    method TransitionDb() returns (o: Outcome)
      requires gas == 0
      modifies this, gp
      ensures o == Transition(env, old(world), old(gp.value), msg)
      ensures o.Applied? ==> world == o.world && gp.value == o.pool && gas <= initialGas && GasUsed() == o.used
      ensures o == Rejected(OutOfGas) || o == Rejected(InsufficientBalance) || o.Applied? <==>
                && NonceOf(old(world), msg.from) == msg.nonce && msg.gas <= old(gp.value)
                && msg.gas * msg.price <= BalanceOf(old(world), msg.from)
      ensures o == Rejected(OutOfGas) ==> !CoversIntrinsic(msg, env.homestead)
      ensures o == Rejected(InsufficientBalance) ==>
                && CoversIntrinsic(msg, env.homestead)
                && msg.gas * msg.price + msg.value > BalanceOf(old(world), msg.from)
      ensures o.Rejected? && o.error !in {OutOfGas, InsufficientBalance} ==>
                world == old(world) && gp.value == old(gp.value)
      ensures o.Rejected? && o.error in {OutOfGas, InsufficientBalance} ==>
                gp.value == old(gp.value) - msg.gas &&
                BalanceOf(world, msg.from) == BalanceOf(old(world), msg.from) - FeeCap(msg)
    {
      var e := PreCheck();
      if e.Some? {
        return Rejected(e.value);
      }
      var intrinsic := IntrinsicGas(msg.data, msg.to.None?, env.homestead);
      if intrinsic.None? {
        return Rejected(OutOfGas);
      }
      var ok := UseGas(intrinsic.value);
      if !ok {
        return Rejected(OutOfGas);
      }
      if msg.to.Some? {
        world := BumpNonce(world, msg.from);
      }
      if BalanceOf(world, msg.from) < msg.value {
        return Rejected(InsufficientBalance);
      }
      if msg.to.None? {
        world := BumpNonce(world, msg.from);
      }
      assert world == Charged(old(world), msg);
      o := Execute(old(world), old(gp.value));
    }
  }
}
