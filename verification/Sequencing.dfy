/** When a whole sequence of transactions can be executed from a world. This is the reference
    against which VerifyBlock and preparePayload are judged (dex/app.go), stated without any
    running ledger: it looks at each transaction's position in the sequence. */
module Sequencing {
  import opened Types
  import opened Gas
  import opened Processor

  /******* Per-sender counts and sums *******/

  function Count(txs: seq<Tx>, a: Address): nat {
    if txs == [] then 0
    else Count(txs[..|txs| - 1], a) + if txs[|txs| - 1].from == a then 1 else 0
  }

  function Spend(txs: seq<Tx>, a: Address): nat {
    if txs == [] then 0
    else Spend(txs[..|txs| - 1], a) + if txs[|txs| - 1].from == a then Cost(txs[|txs| - 1]) else 0
  }

  /** The nonce of the sender's last transaction in the sequence. */
  function LastNonce(txs: seq<Tx>, a: Address): uint64
    requires Count(txs, a) > 0
  {
    if txs[|txs| - 1].from == a then txs[|txs| - 1].nonce else LastNonce(txs[..|txs| - 1], a)
  }

  lemma Snoc(txs: seq<Tx>, t: Tx, a: Address)
    ensures Count(txs + [t], a) == Count(txs, a) + if t.from == a then 1 else 0
    ensures Spend(txs + [t], a) == Spend(txs, a) + if t.from == a then Cost(t) else 0
    ensures Count(txs + [t], a) > 0 ==>
              LastNonce(txs + [t], a) == if t.from == a then t.nonce else LastNonce(txs, a)
  {
    assert (txs + [t])[..|txs + [t]| - 1] == txs;
  }

  lemma {:induction false} Concat(p: seq<Tx>, q: seq<Tx>, a: Address)
    ensures Count(p + q, a) == Count(p, a) + Count(q, a)
    ensures Spend(p + q, a) == Spend(p, a) + Spend(q, a)
    ensures Count(p + q, a) > 0 ==>
              LastNonce(p + q, a) == if Count(q, a) > 0 then LastNonce(q, a) else LastNonce(p, a)
  {
    if q == [] {
      assert p + q == p;
    } else {
      var t := q[|q| - 1];
      assert p + q == (p + q[..|q| - 1]) + [t];
      Concat(p, q[..|q| - 1], a);
      Snoc(p + q[..|q| - 1], t, a);
      assert q == q[..|q| - 1] + [t];
    }
  }

  lemma {:induction false} GasSumConcat(p: seq<Tx>, q: seq<Tx>)
    ensures GasSum(p + q) == GasSum(p) + GasSum(q)
  {
    if p == [] {
      assert p + q == q;
    } else {
      assert (p + q)[1..] == p[1..] + q;
      GasSumConcat(p[1..], q);
    }
  }

  /** The nonce `a` has reached after `txs`, starting from `n`: one 64-bit increment for each
      transaction it sends. */
  function Advance(n: uint64, txs: seq<Tx>, a: Address): uint64 {
    if txs == [] then n
    else
      var m := Advance(n, txs[..|txs| - 1], a);
      if txs[|txs| - 1].from == a then Inc(m) else m
  }

  lemma AdvanceSnoc(n: uint64, txs: seq<Tx>, t: Tx, a: Address)
    ensures Advance(n, txs + [t], a) == if t.from == a then Inc(Advance(n, txs, a)) else Advance(n, txs, a)
  {
    assert (txs + [t])[..|txs + [t]| - 1] == txs;
  }

  lemma {:induction false} AdvanceConcat(n: uint64, p: seq<Tx>, q: seq<Tx>, a: Address)
    ensures Advance(n, p + q, a) == Advance(Advance(n, p, a), q, a)
  {
    if q == [] {
      assert p + q == p;
    } else {
      var t := q[|q| - 1];
      assert p + q == (p + q[..|q| - 1]) + [t];
      AdvanceConcat(n, p, q[..|q| - 1], a);
      AdvanceSnoc(n, p + q[..|q| - 1], t, a);
    }
  }

  /** The nonce the next transaction of `a` must carry after `txs` have run from `w`. */
  function NextNonce(w: World, txs: seq<Tx>, a: Address): uint64 {
    Advance(NonceOf(w, a), txs, a)
  }

  /** In numbers: the state nonce plus the transactions sent, in 64 bits. */
  lemma {:induction false} NextNonceInNumbers(w: World, txs: seq<Tx>, a: Address)
    ensures NextNonce(w, txs, a) == (NonceOf(w, a) + Count(txs, a)) % U64
  {
    if txs != [] {
      NextNonceInNumbers(w, txs[..|txs| - 1], a);
    }
  }

  /** After `before`, transaction `t` finds its sender with exactly its nonce and enough balance,
      even if every earlier transaction costs its sender the full amount. */
  predicate Fits(w: World, before: seq<Tx>, t: Tx) {
    && t.nonce == NextNonce(w, before, t.from)
    && Spend(before, t.from) + Cost(t) <= BalanceOf(w, t.from)
    && CoversIntrinsic(t, true)
  }

  predicate Executable(w: World, txs: seq<Tx>) {
    forall i :: 0 <= i < |txs| ==> Fits(w, txs[..i], txs[i])
  }

  /** `more` can follow `txs`. */
  predicate Extends(w: World, txs: seq<Tx>, more: seq<Tx>) {
    forall i :: 0 <= i < |more| ==> Fits(w, txs + more[..i], more[i])
  }

  lemma ExtendsIsConcat(w: World, p: seq<Tx>, q: seq<Tx>)
    ensures Executable(w, p + q) <==> Executable(w, p) && Extends(w, p, q)
  {
    var all := p + q;
    forall i | 0 <= i < |p|
      ensures all[..i] == p[..i] && all[i] == p[i]
    {
    }
    forall i | 0 <= i < |q|
      ensures all[..|p| + i] == p + q[..i] && all[|p| + i] == q[i]
    {
    }
    if Executable(w, all) {
      assert forall i :: 0 <= i < |p| ==> Fits(w, all[..i], all[i]);
      forall i | 0 <= i < |q|
        ensures Fits(w, p + q[..i], q[i])
      {
        assert Fits(w, all[..|p| + i], all[|p| + i]);
      }
    }
    if Executable(w, p) && Extends(w, p, q) {
      forall i | 0 <= i < |all|
        ensures Fits(w, all[..i], all[i])
      {
        if i >= |p| {
          assert all[i] == q[i - |p|] && all[..i] == p + q[..i - |p|];
        } else {
          assert all[i] == p[i];
        }
      }
    }
  }

  /** Executability only needs the sender's nonces and never too little balance. */
  lemma ExecutableMonotone(w: World, w': World, txs: seq<Tx>)
    requires Executable(w, txs)
    requires forall i :: 0 <= i < |txs| ==>
               && NonceOf(w', txs[i].from) == NonceOf(w, txs[i].from)
               && BalanceOf(w', txs[i].from) >= BalanceOf(w, txs[i].from)
    ensures Executable(w', txs)
  {
    forall i | 0 <= i < |txs|
      ensures Fits(w', txs[..i], txs[i])
    {
      assert Fits(w, txs[..i], txs[i]);
    }
  }

  /** In an executable sequence every sender's total fits its balance. */
  lemma {:induction false} SpendFits(w: World, txs: seq<Tx>, a: Address)
    requires Executable(w, txs)
    ensures Spend(txs, a) <= BalanceOf(w, a)
  {
    if txs != [] {
      var n := |txs| - 1;
      assert Fits(w, txs[..n], txs[n]);
      if txs[n].from != a {
        assert txs == txs[..n] + [txs[n]];
        ExtendsIsConcat(w, txs[..n], [txs[n]]);
        SpendFits(w, txs[..n], a);
      }
    }
  }

  /** The last nonce used is the one before the next. */
  lemma {:induction false} LastBeforeNext(w: World, txs: seq<Tx>, a: Address)
    requires Executable(w, txs) && Count(txs, a) > 0
    ensures Inc(LastNonce(txs, a)) == NextNonce(w, txs, a)
  {
    var n := |txs| - 1;
    assert Fits(w, txs[..n], txs[n]);
    assert txs == txs[..n] + [txs[n]];
    if txs[n].from != a {
      ExtendsIsConcat(w, txs[..n], [txs[n]]);
      LastBeforeNext(w, txs[..n], a);
    }
  }

  /******* What addConfirmedBlock asks of nonces *******/

  /** The nonce rule of addConfirmedBlock: each transaction's nonce exceeds the sender's cached one. */
  ghost predicate Increasing(before: seq<Tx>, txs: seq<Tx>) {
    forall i :: 0 <= i < |txs| ==> IncreasesAt(before + txs[..i], txs[i])
  }

  ghost predicate IncreasesAt(before: seq<Tx>, t: Tx) {
    Count(before, t.from) > 0 ==> LastNonce(before, t.from) < t.nonce
  }

  /** A nonce has wrapped around: nonce 0 for a sender with undelivered transactions before it. */
  predicate Wraps(before: seq<Tx>, txs: seq<Tx>) {
    exists i :: 0 <= i < |txs| && txs[i].nonce == 0 && Count(before + txs[..i], txs[i].from) > 0
  }

  /** A block VerifyBlock accepts is refused by addConfirmedBlock, and so makes BlockConfirmed panic,
      exactly if a sender's nonce wraps past 2^64-1 within the undelivered transactions. */
  lemma AcceptedBlocksIncrease(w: World, before: seq<Tx>, txs: seq<Tx>)
    requires Executable(w, before) && Extends(w, before, txs)
    ensures Increasing(before, txs) <==> !Wraps(before, txs)
  {
    forall i | 0 <= i < |txs|
      ensures IncreasesAt(before + txs[..i], txs[i]) <==>
              !(txs[i].nonce == 0 && Count(before + txs[..i], txs[i].from) > 0)
    {
      var p, a := before + txs[..i], txs[i].from;
      assert Fits(w, p, txs[i]);
      ExtendsPrefix(w, before, txs, i);
      ExtendsIsConcat(w, before, txs[..i]);
      if Count(p, a) > 0 {
        LastBeforeNext(w, p, a);
        IncLess(LastNonce(p, a));
      }
    }
  }

  /** A plain transfer of nothing at no price. */
  predicate Free(t: Tx) {
    t.price == 0 && t.value == 0 && t.data == [] && t.to.Some? && t.gas >= TX_GAS
  }

  lemma FreeFits(w: World, before: seq<Tx>, t: Tx)
    requires Free(t) && t.nonce == NextNonce(w, before, t.from) && Spend(before, t.from) == 0
    ensures Fits(w, before, t) && Cost(t) == 0
  {
    hide Spend, Advance;
    assert Fee(t.gas, 0) == 0;
  }

  lemma NothingBefore(n: uint64, a: Address)
    ensures Count([], a) == 0 && Spend([], a) == 0 && Advance(n, [], a) == n
  {
  }

  /** A list of one. */
  lemma ExtendsOne(w: World, p: seq<Tx>, t: Tx)
    ensures Extends(w, p, [t]) <==> Fits(w, p, t)
    ensures Executable(w, [t]) <==> Fits(w, [], t)
  {
    hide Fits;
    assert p + [t][..0] == p && [t][..0] == [];
  }

  /** A sender at the last nonce with that transaction undelivered: the next one carries exactly the expected
      nonce and can follow, but does not exceed it. */
  lemma WrappedNonceIsRefused(w: World, t: Tx, next: Tx)
    requires Free(t) && Free(next) && next.from == t.from
    requires t.nonce == NonceOf(w, t.from) == MAX_UINT64 && next.nonce == 0
    ensures Executable(w, [t]) && Extends(w, [t], [next]) && Wraps([t], [next]) && !Increasing([t], [next])
  {
    hide Fits, Count, LastNonce, Advance, Spend, Cost, Extends, Executable, Free;
    var a := t.from;
    assert [] + [t] == [t] && [t] + [next][..0] == [t];
    NothingBefore(NonceOf(w, a), a);
    Snoc([], t, a);
    AdvanceSnoc(NonceOf(w, a), [], t, a);
    FreeFits(w, [], t);
    FreeFits(w, [t], next);
    ExtendsOne(w, [], t);
    ExtendsOne(w, [t], next);
    assert !IncreasesAt([t] + [next][..0], [next][0]);
  }

  /** There is such a sender. */
  lemma WrappedNonceExists() returns (w: World, t: Tx, next: Tx)
    ensures Executable(w, [t]) && Extends(w, [t], [next]) && Wraps([t], [next]) && !Increasing([t], [next])
  {
    w := map[7 := Account(MAX_UINT64, 0)];
    t, next := Tx(7, MAX_UINT64, 0, 21000, 0, Some(8), [], 0), Tx(7, 0, 0, 21000, 0, Some(8), [], 0);
    WrappedNonceIsRefused(w, t, next);
  }

  lemma IncLess(n: uint64)
    ensures n < Inc(n) <==> Inc(n) != 0
  {
  }

  lemma ExtendsPrefix(w: World, p: seq<Tx>, q: seq<Tx>, i: nat)
    requires Extends(w, p, q) && i <= |q|
    ensures Extends(w, p, q[..i])
  {
    forall j | 0 <= j < i
      ensures Fits(w, p + q[..i][..j], q[..i][j])
    {
      assert q[..i][..j] == q[..j] && q[..i][j] == q[j];
    }
  }

  /******* Execution *******/

  /** What is assumed of the EVM: a run leaves the nonces of externally owned accounts alone,
      takes at most the transferred value from the sender, and takes nothing from any other
      externally owned account. */
  ghost predicate Faithful(env: Env, external: Address -> bool) {
    forall w: World, t: Tx, g: nat :: external(t.from) && t.value <= BalanceOf(w, t.from) ==>
      RunIsFaithful(external, w, t, env.run(w, t, g).world)
  }

  ghost predicate RunIsFaithful(external: Address -> bool, w: World, t: Tx, w': World) {
    && BalanceOf(w', t.from) + t.value >= BalanceOf(w, t.from)
    && (forall a :: external(a) ==> NonceOf(w', a) == NonceOf(w, a))
    && (forall a :: external(a) && a != t.from ==> BalanceOf(w', a) >= BalanceOf(w, a))
  }

  /** The effect of an applied transaction on externally owned accounts. */
  ghost predicate TxEffect(external: Address -> bool, w: World, t: Tx, w': World) {
    && NonceOf(w', t.from) == Inc(NonceOf(w, t.from))
    && BalanceOf(w', t.from) + Cost(t) >= BalanceOf(w, t.from)
    && forall a :: external(a) && a != t.from ==>
                     NonceOf(w', a) == NonceOf(w, a) && BalanceOf(w', a) >= BalanceOf(w, a)
  }

  lemma SettleOnlyAdds(env: Env, w: World, t: Tx, back: uint64, a: Address)
    requires back <= t.gas
    ensures NonceOf(Settle(env, w, t, back), a) == NonceOf(w, a)
    ensures BalanceOf(Settle(env, w, t, back), a) >= BalanceOf(w, a)
  {
  }

  /** A transaction costs its sender at most `Cost` and no other sender anything. */
  lemma AppliedEffect(env: Env, external: Address -> bool, w: World, gp: uint64, t: Tx)
    requires Faithful(env, external) && external(t.from)
    requires Transition(env, w, gp, t).Applied?
    ensures TxEffect(external, w, t, Transition(env, w, gp, t).world)
  {
    AppliedExactlyWhen(env, w, gp, t);
    var charged := Charged(w, t);
    var ran := RunMessage(env, w, t).world;
    var end := Transition(env, w, gp, t).world;
    assert RunIsFaithful(external, charged, t, ran);
    forall a
      ensures NonceOf(end, a) == NonceOf(ran, a) && BalanceOf(end, a) >= BalanceOf(ran, a)
    {
      SettleOnlyAdds(env, ran, t, Returned(env, w, t), a);
    }
  }

  lemma HeadFits(w: World, t: Tx, rest: seq<Tx>)
    requires Executable(w, [t] + rest)
    ensures t.nonce == NonceOf(w, t.from) && Cost(t) <= BalanceOf(w, t.from) && CoversIntrinsic(t, true)
  {
    assert Fits(w, ([t] + rest)[..0], ([t] + rest)[0]);
  }

  ghost predicate AllExternal(external: Address -> bool, txs: seq<Tx>) {
    forall i :: 0 <= i < |txs| ==> external(txs[i].from)
  }

  /** Executing the head of an executable sequence leaves the tail executable. */
  lemma TailStaysExecutable(external: Address -> bool, w: World, t: Tx, rest: seq<Tx>, w': World)
    requires Executable(w, [t] + rest) && AllExternal(external, rest)
    requires TxEffect(external, w, t, w')
    ensures Executable(w', rest)
  {
    forall i | 0 <= i < |rest|
      ensures Fits(w', rest[..i], rest[i])
    {
      var all, a := [t] + rest, rest[i].from;
      assert Fits(w, all[..i + 1], all[i + 1]);
      assert all[..i + 1] == [t] + rest[..i];
      Concat([t], rest[..i], a);
      AdvanceConcat(NonceOf(w, a), [t], rest[..i], a);
      assert [] + [t] == [t];
      Snoc([], t, a);
      AdvanceSnoc(NonceOf(w, a), [], t, a);
      assert external(a);
    }
  }

  /** Main step of delivery: with enough pool, the front part of an executable sequence runs to
      the end without any error and the remaining part is executable from where it ends. */
  lemma {:induction false} FrontRuns(env: Env, external: Address -> bool, w: World, gp: uint64, used: uint64,
                                     front: seq<Tx>, rest: seq<Tx>)
    requires Faithful(env, external) && AllExternal(external, front + rest)
    requires Executable(w, front + rest)
    requires GasSum(front) <= gp
    ensures var p := ProcessFrom(env, w, gp, used, front);
            p.Done? && Executable(p.world, rest)
    decreases |front|
  {
    if front == [] {
      assert front + rest == rest;
    } else {
      var t := front[0];
      assert front + rest == [t] + (front[1..] + rest);
      assert AllExternal(external, front[1..] + rest) by {
        forall i | 0 <= i < |front[1..] + rest|
          ensures external((front[1..] + rest)[i].from)
        {
          assert (front[1..] + rest)[i] == (front + rest)[i + 1];
        }
      }
      HeadFits(w, t, front[1..] + rest);
      HomesteadIsStricter(t, env.homestead);
      AppliedExactlyWhen(env, w, gp, t);
      var o := Transition(env, w, gp, t);
      assert external((front + rest)[0].from);
      AppliedEffect(env, external, w, gp, t);
      PoolPaysGasUsed(env, w, gp, t);
      TailStaysExecutable(external, w, t, front[1..] + rest, o.world);
      FrontRuns(env, external, o.world, o.pool, Add64(used, o.used), front[1..], rest);
    }
  }

  /******* Why the reference is what it is *******/

  /** The costliest machine: it uses up all gas, and value and fees go to `sink`. */
  function Costliest(sink: Address): Env {
    Env((w: World, t: Tx, g: nat) => RunResult(ValueMoved(w, t, sink), g, 0, false), (w: World, t: Tx) => sink, false,
        true)
  }

  function ValueMoved(w: World, t: Tx, sink: Address): World {
    if t.value <= BalanceOf(w, t.from) then AddBalance(SubBalance(w, t.from, t.value), sink, t.value) else w
  }

  lemma CostliestIsFaithful(external: Address -> bool, sink: Address)
    requires !external(sink)
    ensures Faithful(Costliest(sink), external)
  {
    var env := Costliest(sink);
    forall w: World, t: Tx, g: nat | external(t.from) && t.value <= BalanceOf(w, t.from)
      ensures RunIsFaithful(external, w, t, env.run(w, t, g).world)
    {
    }
  }

  /** On it every transaction costs its sender exactly the full amount. */
  lemma CostliestStep(sink: Address, w: World, gp: uint64, t: Tx)
    requires t.from != sink && Transition(Costliest(sink), w, gp, t).Applied?
    ensures var o := Transition(Costliest(sink), w, gp, t);
            && o.pool == gp - t.gas
            && NonceOf(o.world, t.from) == Inc(NonceOf(w, t.from))
            && BalanceOf(o.world, t.from) + Cost(t) == BalanceOf(w, t.from)
            && forall a :: a != t.from && a != sink ==>
                 NonceOf(o.world, a) == NonceOf(w, a) && BalanceOf(o.world, a) == BalanceOf(w, a)
  {
    hide IntrinsicGas, DataGas;
    var env := Costliest(sink);
    AppliedExactlyWhen(env, w, gp, t);
    AppliedPays(env, w, gp, t);
    RunsOnChargedWorld(env, w, t);
    GasUsedInNumbers(env, w, gp, t);
    PoolPaysGasUsed(env, w, gp, t);
  }

  /** If the head costs its sender exactly the full amount, the tail fits afterwards exactly if it fits after it. */
  lemma TailFits(w: World, t: Tx, w': World, p: seq<Tx>, x: Tx)
    requires NonceOf(w', x.from) == if x.from == t.from then Inc(NonceOf(w, x.from)) else NonceOf(w, x.from)
    requires BalanceOf(w, x.from) == BalanceOf(w', x.from) + if x.from == t.from then Cost(t) else 0
    ensures Fits(w, [t] + p, x) <==> Fits(w', p, x)
  {
    hide Cost, CoversIntrinsic;
    var a := x.from;
    Concat([t], p, a);
    AdvanceConcat(NonceOf(w, a), [t], p, a);
    assert [] + [t] == [t];
    Snoc([], t, a);
    AdvanceSnoc(NonceOf(w, a), [], t, a);
  }

  lemma HeadAndTail(w: World, t: Tx, rest: seq<Tx>, w': World)
    requires forall i :: 0 <= i < |rest| ==> forall p :: Fits(w, [t] + p, rest[i]) <==> Fits(w', p, rest[i])
    ensures Executable(w, [t] + rest) <==> Fits(w, [], t) && Executable(w', rest)
  {
    hide Fits;
    var all := [t] + rest;
    forall i | 0 <= i < |rest|
      ensures Fits(w, all[..i + 1], all[i + 1]) <==> Fits(w', rest[..i], rest[i])
    {
      assert all[..i + 1] == [t] + rest[..i];
    }
    assert all[..0] == [] && all[0] == t;
    if Executable(w, all) {
      assert Fits(w, all[..0], all[0]);
      forall i | 0 <= i < |rest|
        ensures Fits(w', rest[..i], rest[i])
      {
        assert Fits(w, all[..i + 1], all[i + 1]);
      }
    }
    if Fits(w, [], t) && Executable(w', rest) {
      forall i | 0 <= i < |all|
        ensures Fits(w, all[..i], all[i])
      {
        assert i > 0 ==> Fits(w', rest[..i - 1], rest[i - 1]);
      }
    }
  }

  /** On the costliest machine a sequence runs to the end exactly if it is executable. */
  lemma {:induction false} RunsOnCostliestExactlyWhen(sink: Address, w: World, gp: uint64, used: uint64, txs: seq<Tx>)
    requires GasSum(txs) <= gp && forall i :: 0 <= i < |txs| ==> txs[i].from != sink
    ensures ProcessFrom(Costliest(sink), w, gp, used, txs).Done? <==> Executable(w, txs)
    decreases |txs|
  {
    hide Transition, Fits, Costliest;
    if txs != [] {
      var t, rest, o := txs[0], txs[1..], Transition(Costliest(sink), w, gp, txs[0]);
      assert txs == [t] + rest;
      FirstFits(sink, w, gp, t);
      if o.Applied? {
        CostliestStep(sink, w, gp, t);
        forall i, p | 0 <= i < |rest|
          ensures Fits(w, [t] + p, rest[i]) <==> Fits(o.world, p, rest[i])
        {
          assert rest[i] == txs[i + 1];
          TailFits(w, t, o.world, p, rest[i]);
        }
        HeadAndTail(w, t, rest, o.world);
        RunsOnCostliestExactlyWhen(sink, o.world, o.pool, Add64(used, o.used), rest);
      } else {
        assert txs[..0] == [];
        assert !Fits(w, txs[..0], txs[0]);
      }
    }
  }

  lemma FirstFits(sink: Address, w: World, gp: uint64, t: Tx)
    requires t.gas <= gp
    ensures Transition(Costliest(sink), w, gp, t).Applied? <==> Fits(w, [], t)
  {
    AppliedExactlyWhen(Costliest(sink), w, gp, t);
  }

  /** The reference is exactly right: a sequence is executable if and only if every faithful machine runs it to the
      end. */
  lemma ExecutableExactlyWhenEveryMachineRuns(external: Address -> bool, sink: Address, w: World, gp: uint64,
                                              txs: seq<Tx>)
    requires AllExternal(external, txs) && !external(sink) && GasSum(txs) <= gp
    ensures Executable(w, txs) <==> forall env :: Faithful(env, external) ==> ProcessFrom(env, w, gp, 0, txs).Done?
  {
    hide Faithful, Executable;
    if Executable(w, txs) {
      forall env | Faithful(env, external)
        ensures ProcessFrom(env, w, gp, 0, txs).Done?
      {
        assert txs + [] == txs;
        FrontRuns(env, external, w, gp, 0, txs, []);
      }
    } else {
      CostliestIsFaithful(external, sink);
      RunsOnCostliestExactlyWhen(sink, w, gp, 0, txs);
    }
  }
}
