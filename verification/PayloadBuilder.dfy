/** Building a payload (preparePayload in dex/app.go). Each account offers the longest run of eligible transactions
    from its expected nonce on; the payload is as much of the offers, in the order the accounts come, as the
    block gas limit lets through when gas is added up through `int64`. */
module PayloadBuilder {
  import opened Types
  import opened Gas
  import opened Processor
  import opened Sequencing
  import opened Dexcon
  import opened Ledger
  import opened Sums

  /** The conversions `int64(x)` and `int(x)` of a 64-bit word. */
  function Signed(x: uint64): int {
    if x < I63 then x else x - U64
  }

  /** The block gas total as preparePayload adds it up, through `int64`. */
  function SignedGas(txs: seq<Tx>): int {
    if txs == [] then 0 else Signed(txs[0].gas) + SignedGas(txs[1..])
  }

  /** One account's executable list from the pool: its own transactions with gap-free nonces. */
  ghost predicate GapFree(a: Address, txs: seq<Tx>) {
    forall i :: 0 <= i < |txs| ==> txs[i].from == a && txs[i].nonce == txs[0].nonce + i
  }

  /** The lists as the pool hands them out; a Go slice is shorter than 2^63. */
  ghost predicate GapFreeLists(pending: map<Address, seq<Tx>>) {
    forall a :: a in pending ==> GapFree(a, pending[a]) && |pending[a]| < I63
  }

  ghost predicate GasBelowI63(txs: seq<Tx>) {
    forall i :: 0 <= i < |txs| ==> txs[i].gas < I63
  }

  /** The intrinsic gas does not fit 64 bits. */
  predicate Overflows(t: Tx) {
    IntrinsicGas(t.data, t.to.None?, true).None?
  }

  /** Dear enough, and affordable with enough gas after everything before it. */
  ghost predicate Eligible(state: World, before: seq<Tx>, config: GovConfig, t: Tx) {
    config.minGasPrice <= t.price && AffordableAt(state, before, t)
  }

  /** A transaction with the expected nonce is eligible exactly if its price is high enough and everything before it
      followed by it is executable. */
  lemma EligibleExactlyWhen(state: World, before: seq<Tx>, config: GovConfig, t: Tx)
    requires Executable(state, before) && t.nonce == NextNonce(state, before, t.from)
    ensures Eligible(state, before, config, t) <==>
              t.price >= config.minGasPrice && Executable(state, before + [t])
  {
    hide Executable, Cost, CoversIntrinsic, NextNonce;
    ExtendsIsConcat(state, before, [t]);
    assert before + [t][..0] == before;
    assert Extends(state, before, [t]) <==> Fits(state, before, t) by {
      if Extends(state, before, [t]) {
        assert Fits(state, before + [t][..0], [t][0]);
      }
    }
  }

  /******* What an account offers *******/

  /** The longest eligible run from position `i` on. */
  ghost function Run(state: World, before: seq<Tx>, config: GovConfig, txs: seq<Tx>, i: nat): seq<Tx>
    requires i <= |txs|
    decreases |txs| - i
  {
    if i == |txs| || !Eligible(state, before, config, txs[i]) then []
    else [txs[i]] + Run(state, before + [txs[i]], config, txs, i + 1)
  }

  /** Where the source looks for the expected nonce: a 64-bit difference converted to a signed index. */
  function StartAt(txs: seq<Tx>, expectNonce: uint64): int
    requires txs != []
  {
    var first := txs[0].nonce;
    Signed(if expectNonce >= first then expectNonce - first else expectNonce - first + U64)
  }

  /** The account's offer after everything in `before`. */
  ghost function RunOf(state: World, before: seq<Tx>, config: GovConfig, a: Address, txs: seq<Tx>): seq<Tx> {
    if txs == [] then []
    else
      var i := StartAt(txs, NextNonce(state, before, a));
      if 0 <= i < |txs| then Run(state, before, config, txs, i) else []
  }

  /** The index is the place of the expected nonce, if the list has it. */
  lemma StartIndex(a: Address, txs: seq<Tx>, expectNonce: uint64)
    requires GapFree(a, txs) && 0 < |txs| < I63
    ensures var i := StartAt(txs, expectNonce);
            && (0 <= i < |txs| ==> txs[i].nonce == expectNonce)
            && (!(0 <= i < |txs|) ==> forall t :: t in txs ==> t.nonce != expectNonce)
  {
  }

  lemma NextInList(a: Address, txs: seq<Tx>, i: nat)
    requires GapFree(a, txs) && 0 < i < |txs|
    ensures txs[i].nonce == Inc(txs[i - 1].nonce)
  {
  }

  lemma EligibleFits(state: World, before: seq<Tx>, config: GovConfig, t: Tx)
    requires Eligible(state, before, config, t) && t.nonce == NextNonce(state, before, t.from)
    ensures Fits(state, before, t)
  {
  }

  /** What one more transaction does to its sender's nonce and spending. */
  lemma TakeEffect(state: World, before: seq<Tx>, t: Tx)
    requires t.nonce == NextNonce(state, before, t.from)
    ensures Spend(before + [t], t.from) == Spend(before, t.from) + Cost(t)
    ensures NextNonce(state, before + [t], t.from) == Inc(t.nonce)
  {
    hide Cost, Spend, Count, Advance;
    Snoc(before, t, t.from);
    AdvanceSnoc(NonceOf(state, t.from), before, t, t.from);
  }

  /** Every transaction of a run is the next of the list, with the expected nonce and eligible where it comes. */
  lemma {:induction false} RunEntry(state: World, before: seq<Tx>, config: GovConfig, a: Address, txs: seq<Tx>, i: nat,
                                    j: nat)
    requires GapFree(a, txs) && i < |txs| && txs[i].nonce == NextNonce(state, before, a)
    requires j < |Run(state, before, config, txs, i)|
    ensures var r := Run(state, before, config, txs, i);
            && i + j < |txs| && r[j] == txs[i + j]
            && r[j].nonce == NextNonce(state, before + r[..j], a)
            && Eligible(state, before + r[..j], config, r[j])
    decreases j
  {
    hide Eligible, NextNonce;
    var r := Run(state, before, config, txs, i);
    assert before + r[..0] == before;
    if j > 0 {
      var t := txs[i];
      var rest := Run(state, before + [t], config, txs, i + 1);
      assert rest != [];
      TakeEffect(state, before, t);
      NextInList(a, txs, i + 1);
      RunEntry(state, before + [t], config, a, txs, i + 1, j - 1);
      assert r == [t] + rest && r[j] == rest[j - 1];
      assert before + r[..j] == (before + [t]) + rest[..j - 1];
    }
  }

  /** No transaction of the list could be appended next. */
  ghost predicate Exhausted(state: World, before: seq<Tx>, config: GovConfig, a: Address, txs: seq<Tx>) {
    forall t :: t in txs && t.nonce == NextNonce(state, before, a) ==> !Eligible(state, before, config, t)
  }

  /** At most one transaction of a gap-free list has the next nonce. */
  lemma OnlyOneNext(state: World, before: seq<Tx>, config: GovConfig, a: Address, txs: seq<Tx>, i: nat)
    requires GapFree(a, txs) && |txs| < I63 && i <= |txs|
    requires i < |txs| ==> txs[i].nonce == NextNonce(state, before, a) && !Eligible(state, before, config, txs[i])
    requires i == |txs| > 0 ==> NextNonce(state, before, a) == Inc(txs[i - 1].nonce)
    ensures Exhausted(state, before, config, a, txs)
  {
    hide Eligible, NextNonce;
    forall t | t in txs && t.nonce == NextNonce(state, before, a)
      ensures !Eligible(state, before, config, t)
    {
      var j :| 0 <= j < |txs| && txs[j] == t;
    }
  }

  /** After its run an account has nothing more to offer. */
  lemma {:induction false} RunExhausts(state: World, before: seq<Tx>, config: GovConfig, a: Address, txs: seq<Tx>,
                                       i: nat)
    requires GapFree(a, txs) && |txs| < I63 && i <= |txs|
    requires i < |txs| ==> txs[i].nonce == NextNonce(state, before, a)
    requires i == |txs| > 0 ==> NextNonce(state, before, a) == Inc(txs[i - 1].nonce)
    ensures Exhausted(state, before + Run(state, before, config, txs, i), config, a, txs)
    decreases |txs| - i
  {
    hide Eligible, NextNonce, Exhausted;
    var r := Run(state, before, config, txs, i);
    if r == [] {
      assert before + r == before;
      OnlyOneNext(state, before, config, a, txs, i);
    } else {
      var t := txs[i];
      TakeEffect(state, before, t);
      if i + 1 < |txs| {
        NextInList(a, txs, i + 1);
      }
      RunExhausts(state, before + [t], config, a, txs, i + 1);
      assert before + r == (before + [t]) + Run(state, before + [t], config, txs, i + 1);
    }
  }

  lemma OfferExhausts(state: World, before: seq<Tx>, config: GovConfig, a: Address, txs: seq<Tx>)
    requires GapFree(a, txs) && |txs| < I63
    ensures Exhausted(state, before + RunOf(state, before, config, a, txs), config, a, txs)
  {
    hide Eligible, NextNonce;
    assert before + [] == before;
    if txs != [] {
      var i := StartAt(txs, NextNonce(state, before, a));
      StartIndex(a, txs, NextNonce(state, before, a));
      if 0 <= i < |txs| {
        RunExhausts(state, before, config, a, txs, i);
      }
    }
  }

  /** A run depends on what comes before only through what its sender has spent. */
  lemma {:induction false} RunBySpend(state: World, p: seq<Tx>, q: seq<Tx>, config: GovConfig, a: Address,
                                      txs: seq<Tx>, i: nat)
    requires GapFree(a, txs) && i <= |txs| && Spend(p, a) == Spend(q, a)
    ensures Run(state, p, config, txs, i) == Run(state, q, config, txs, i)
    decreases |txs| - i
  {
    hide Cost, Spend, CoversIntrinsic;
    if i < |txs| {
      Snoc(p, txs[i], a);
      Snoc(q, txs[i], a);
      RunBySpend(state, p + [txs[i]], q + [txs[i]], config, a, txs, i + 1);
    }
  }

  /** Transactions of other accounts do not count. */
  lemma {:induction false} OthersDoNotCount(txs: seq<Tx>, b: Address)
    requires forall j :: 0 <= j < |txs| ==> txs[j].from != b
    ensures Count(txs, b) == 0
  {
    if txs != [] {
      OthersDoNotCount(txs[..|txs| - 1], b);
    }
  }

  lemma OthersChangeNothing(state: World, before: seq<Tx>, more: seq<Tx>, a: Address)
    requires Count(more, a) == 0
    ensures Spend(before + more, a) == Spend(before, a)
    ensures NextNonce(state, before + more, a) == NextNonce(state, before, a)
  {
    hide Count, Spend, Advance;
    AdvanceConcat(NonceOf(state, a), before, more, a);
    NoCountNoAdvance(NextNonce(state, before, a), more, a);
    Concat(before, more, a);
    NoCountNoSpend(more, a);
  }

  /** An offer is the same whatever other accounts put in front. */
  lemma OfferUnaffected(state: World, before: seq<Tx>, more: seq<Tx>, config: GovConfig, a: Address, txs: seq<Tx>)
    requires GapFree(a, txs) && Count(more, a) == 0
    ensures RunOf(state, before + more, config, a, txs) == RunOf(state, before, config, a, txs)
  {
    hide Run, Spend, NextNonce, Count;
    OthersChangeNothing(state, before, more, a);
    if txs != [] {
      var i := StartAt(txs, NextNonce(state, before, a));
      if 0 <= i < |txs| {
        RunBySpend(state, before + more, before, config, a, txs, i);
      }
    }
  }

  /** Appending another account's transactions does not give an exhausted account a next one. */
  lemma StaysExhausted(state: World, before: seq<Tx>, more: seq<Tx>, config: GovConfig, a: Address, txs: seq<Tx>)
    requires Exhausted(state, before, config, a, txs) && GapFree(a, txs) && Count(more, a) == 0
    ensures Exhausted(state, before + more, config, a, txs)
  {
    hide Cost, Count, Spend, NextNonce, CoversIntrinsic;
    OthersChangeNothing(state, before, more, a);
    forall t | t in txs && t.nonce == NextNonce(state, before + more, a)
      ensures !Eligible(state, before + more, config, t)
    {
      assert t.from == a;
    }
  }

  lemma OfferEntry(state: World, before: seq<Tx>, config: GovConfig, a: Address, txs: seq<Tx>, j: nat)
    requires GapFree(a, txs) && |txs| < I63 && j < |RunOf(state, before, config, a, txs)|
    ensures var r := RunOf(state, before, config, a, txs);
            && r[j] in txs && r[j].from == a
            && r[j].nonce == NextNonce(state, before + r[..j], a)
            && Eligible(state, before + r[..j], config, r[j])
  {
    hide Eligible, NextNonce, Run;
    StartIndex(a, txs, NextNonce(state, before, a));
    RunEntry(state, before, config, a, txs, StartAt(txs, NextNonce(state, before, a)), j);
  }

  /******* What the block takes *******/

  /** The longest beginning whose running total never exceeds the limit. */
  function Fit(used: int, txs: seq<Tx>, limit: nat): seq<Tx>
    decreases |txs|
  {
    if txs == [] || used + Signed(txs[0].gas) > limit then []
    else [txs[0]] + Fit(used + Signed(txs[0].gas), txs[1..], limit)
  }

  lemma {:induction false} FitIsBeginning(used: int, txs: seq<Tx>, limit: nat)
    ensures Fit(used, txs, limit) <= txs
    ensures used <= limit ==> used + SignedGas(Fit(used, txs, limit)) <= limit
    ensures var k := |Fit(used, txs, limit)|;
            k < |txs| ==> used + SignedGas(Fit(used, txs, limit)) + Signed(txs[k].gas) > limit
    decreases |txs|
  {
    hide Signed;
    var f := Fit(used, txs, limit);
    if f != [] {
      FitIsBeginning(used + Signed(txs[0].gas), txs[1..], limit);
      assert f[1..] == Fit(used + Signed(txs[0].gas), txs[1..], limit);
    }
  }

  lemma FitHead(used: int, txs: seq<Tx>, limit: nat)
    requires txs != []
    ensures Fit(used, txs, limit) == if used + Signed(txs[0].gas) > limit then []
                                     else [txs[0]] + Fit(used + Signed(txs[0].gas), txs[1..], limit)
    ensures SignedGas(txs) == Signed(txs[0].gas) + SignedGas(txs[1..])
  {
  }

  /** What comes after a beginning that is taken completely goes on from its total. */
  lemma {:induction false} FitGoesOn(used: int, x: seq<Tx>, y: seq<Tx>, limit: nat)
    requires Fit(used, x, limit) == x
    ensures Fit(used, x + y, limit) == x + Fit(used + SignedGas(x), y, limit)
    decreases |x|
  {
    hide Fit, Signed, SignedGas;
    if x == [] {
      FitNothing(used, limit);
      assert x + y == y && x + Fit(used, y, limit) == Fit(used, y, limit);
    } else {
      var t, z := x[0], x[1..];
      var u := used + Signed(t.gas);
      FitHead(used, x, limit);
      assert Fit(used, x, limit)[1..] == z;
      FitGoesOn(u, z, y, limit);
      FrontFirst(x, y);
      FitHead(used, x + y, limit);
      FrontFirst(x, Fit(u + SignedGas(z), y, limit));
    }
  }

  lemma FrontFirst(x: seq<Tx>, y: seq<Tx>)
    requires x != []
    ensures (x + y)[0] == x[0] && (x + y)[1..] == x[1..] + y && [x[0]] + (x[1..] + y) == x + y
  {
  }

  lemma FitNothing(used: int, limit: nat)
    ensures Fit(used, [], limit) == [] && SignedGas([]) == 0
  {
  }

  /** What comes after a place that does not fit is not taken. */
  lemma {:induction false} FitStops(used: int, x: seq<Tx>, y: seq<Tx>, limit: nat)
    requires |Fit(used, x, limit)| < |x|
    ensures Fit(used, x + y, limit) == Fit(used, x, limit)
    decreases |x|
  {
    hide Signed;
    assert (x + y)[0] == x[0];
    if used + Signed(x[0].gas) <= limit {
      FitStops(used + Signed(x[0].gas), x[1..], y, limit);
      assert (x + y)[1..] == x[1..] + y;
    }
  }

  /** Starting lower, at least as much is taken. */
  lemma {:induction false} FitLower(used: int, lower: int, txs: seq<Tx>, limit: nat)
    requires lower <= used
    ensures Fit(used, txs, limit) <= Fit(lower, txs, limit)
    decreases |txs|
  {
    hide Signed;
    if Fit(used, txs, limit) != [] {
      FitLower(used + Signed(txs[0].gas), lower + Signed(txs[0].gas), txs[1..], limit);
    }
  }

  /******* Whole payloads *******/

  predicate Distinct(order: seq<Address>) {
    forall i, j :: 0 <= i < j < |order| ==> order[i] != order[j]
  }

  /** An order in which accounts of the pool may be visited, possibly not all of them. */
  predicate IsOrder(order: seq<Address>, pending: map<Address, seq<Tx>>) {
    Distinct(order) && forall i :: 0 <= i < |order| ==> order[i] in pending
  }

  ghost function OfferOf(state: World, before: seq<Tx>, config: GovConfig, pending: map<Address, seq<Tx>>,
                         a: Address): seq<Tx> {
    if a in pending then RunOf(state, before, config, a, pending[a]) else []
  }

  /** The offers of the accounts, one after the other. */
  ghost function Offers(state: World, before: seq<Tx>, config: GovConfig, pending: map<Address, seq<Tx>>,
                        order: seq<Address>): seq<Tx> {
    if order == [] then []
    else
      var k := |order| - 1;
      Offers(state, before, config, pending, order[..k]) + OfferOf(state, before, config, pending, order[k])
  }

  /** The payload built when the accounts come in this order. */
  ghost function Built(state: World, before: seq<Tx>, config: GovConfig, pending: map<Address, seq<Tx>>,
                       order: seq<Address>): seq<Tx> {
    Fit(0, Offers(state, before, config, pending, order), config.blockGasLimit)
  }

  /** An offered transaction is a pending one of an account in the order. */
  lemma {:induction false} OffersFrom(state: World, before: seq<Tx>, config: GovConfig, pending: map<Address, seq<Tx>>,
                                      order: seq<Address>, j: nat)
    requires GapFreeLists(pending) && IsOrder(order, pending) && j < |Offers(state, before, config, pending, order)|
    ensures var t := Offers(state, before, config, pending, order)[j];
            t.from in order && t in pending[t.from] && config.minGasPrice <= t.price
    decreases |order|
  {
    hide NextNonce;
    var k := |order| - 1;
    var front := Offers(state, before, config, pending, order[..k]);
    if j < |front| {
      OffersFrom(state, before, config, pending, order[..k], j);
    } else {
      OfferEntry(state, before, config, order[k], pending[order[k]], j - |front|);
    }
  }

  lemma AbsentDoesNotCount(state: World, before: seq<Tx>, config: GovConfig, pending: map<Address, seq<Tx>>,
                           order: seq<Address>, b: Address)
    requires GapFreeLists(pending) && IsOrder(order, pending) && b !in order
    ensures Count(Offers(state, before, config, pending, order), b) == 0
  {
    var offers := Offers(state, before, config, pending, order);
    forall j | 0 <= j < |offers|
      ensures offers[j].from != b
    {
      OffersFrom(state, before, config, pending, order, j);
    }
    OthersDoNotCount(offers, b);
  }

  lemma ExtendsAppend(w: World, p: seq<Tx>, q: seq<Tx>, r: seq<Tx>)
    requires Extends(w, p, q) && Extends(w, p + q, r)
    ensures Extends(w, p, q + r)
  {
    hide Fits;
    var all := q + r;
    forall i | 0 <= i < |all|
      ensures Fits(w, p + all[..i], all[i])
    {
      if i < |q| {
        assert all[..i] == q[..i] && all[i] == q[i];
      } else {
        assert p + all[..i] == (p + q) + r[..i - |q|] && all[i] == r[i - |q|];
      }
    }
  }

  lemma OfferExtends(state: World, before: seq<Tx>, config: GovConfig, a: Address, txs: seq<Tx>)
    requires GapFree(a, txs) && |txs| < I63
    ensures Extends(state, before, RunOf(state, before, config, a, txs))
  {
    hide Fits, RunOf, Eligible, NextNonce;
    var r := RunOf(state, before, config, a, txs);
    forall j | 0 <= j < |r|
      ensures Fits(state, before + r[..j], r[j])
    {
      OfferEntry(state, before, config, a, txs, j);
      EligibleFits(state, before + r[..j], config, r[j]);
    }
  }

  /** The offers together can follow everything undelivered. */
  lemma {:induction false} OffersExtend(state: World, before: seq<Tx>, config: GovConfig,
                                        pending: map<Address, seq<Tx>>, order: seq<Address>)
    requires GapFreeLists(pending) && IsOrder(order, pending)
    ensures Extends(state, before, Offers(state, before, config, pending, order))
    decreases |order|
  {
    hide Extends, RunOf, Count;
    if order == [] {
      NothingExtends(state, before);
    } else {
      var k := |order| - 1;
      var front, a := Offers(state, before, config, pending, order[..k]), order[k];
      OffersExtend(state, before, config, pending, order[..k]);
      AbsentDoesNotCount(state, before, config, pending, order[..k], a);
      OfferUnaffected(state, before, front, config, a, pending[a]);
      OfferExtends(state, before + front, config, a, pending[a]);
      ExtendsAppend(state, before, front, RunOf(state, before, config, a, pending[a]));
    }
  }

  lemma NothingExtends(w: World, before: seq<Tx>)
    ensures Extends(w, before, [])
  {
  }

  /** Everything but the block gas total: what is built can follow everything undelivered, at permitted prices,
      comes from the pool, and fits as far as `int64` arithmetic can tell. */
  lemma BuiltExtends(state: World, before: seq<Tx>, config: GovConfig, pending: map<Address, seq<Tx>>,
                     order: seq<Address>)
    requires GapFreeLists(pending) && IsOrder(order, pending)
    ensures var built := Built(state, before, config, pending, order);
            && Extends(state, before, built) && PricesAtLeast(built, config.minGasPrice)
            && SignedGas(built) <= config.blockGasLimit
            && forall t :: t in built ==> t.from in order && t in pending[t.from]
  {
    hide Extends, Offers, Fit, SignedGas;
    var offers, built := Offers(state, before, config, pending, order), Built(state, before, config, pending, order);
    FitIsBeginning(0, offers, config.blockGasLimit);
    OffersExtend(state, before, config, pending, order);
    ExtendsPrefix(state, before, offers, |built|);
    assert offers[..|built|] == built;
    forall j | 0 <= j < |built|
      ensures built[j].from in order && built[j] in pending[built[j].from] && config.minGasPrice <= built[j].price
    {
      OffersFrom(state, before, config, pending, order, j);
    }
  }

  /******* Nothing is left out without a reason *******/

  /** The transaction that ended the payload: the next one of its account, eligible, and too large for the rest of
      the block. */
  ghost predicate EndedAt(state: World, before: seq<Tx>, config: GovConfig, built: seq<Tx>, a: Address, txs: seq<Tx>,
                          t: Tx) {
    && t in txs && t.nonce == NextNonce(state, before + built, a) && Eligible(state, before + built, config, t)
    && SignedGas(built) + Signed(t.gas) > config.blockGasLimit
  }

  /** Either some account's next eligible transaction did not fit the block, and that ended the payload, or every
      account visited has nothing eligible left. */
  ghost predicate Maximal(state: World, before: seq<Tx>, config: GovConfig, built: seq<Tx>,
                          pending: map<Address, seq<Tx>>, order: seq<Address>) {
    || (exists a, t :: a in order && a in pending && EndedAt(state, before, config, built, a, pending[a], t))
    || (forall a :: a in order && a in pending ==> Exhausted(state, before + built, config, a, pending[a]))
  }

  /** Every offered transaction is its account's next and eligible where it comes. */
  lemma {:induction false} OffersEntry(state: World, before: seq<Tx>, config: GovConfig, pending: map<Address, seq<Tx>>,
                                       order: seq<Address>, j: nat)
    requires GapFreeLists(pending) && IsOrder(order, pending) && j < |Offers(state, before, config, pending, order)|
    ensures var offers := Offers(state, before, config, pending, order);
            var t := offers[j];
            && t.from in order && t in pending[t.from] && t.nonce == NextNonce(state, before + offers[..j], t.from)
            && Eligible(state, before + offers[..j], config, t)
    decreases |order|
  {
    hide NextNonce, Eligible, RunOf, Count;
    var k := |order| - 1;
    var offers := Offers(state, before, config, pending, order);
    var front := Offers(state, before, config, pending, order[..k]);
    if j < |front| {
      OffersEntry(state, before, config, pending, order[..k], j);
      assert offers[..j] == front[..j];
    } else {
      var a, i := order[k], j - |front|;
      var run := RunOf(state, before, config, a, pending[a]);
      AbsentDoesNotCount(state, before, config, pending, order[..k], a);
      OfferUnaffected(state, before, front, config, a, pending[a]);
      OfferEntry(state, before + front, config, a, pending[a], i);
      assert before + offers[..j] == (before + front) + run[..i];
    }
  }

  /** After all offers no account of the order has anything eligible left. */
  lemma {:induction false} OffersExhaust(state: World, before: seq<Tx>, config: GovConfig,
                                         pending: map<Address, seq<Tx>>, order: seq<Address>, a: Address)
    requires GapFreeLists(pending) && IsOrder(order, pending) && a in order
    ensures Exhausted(state, before + Offers(state, before, config, pending, order), config, a, pending[a])
    decreases |order|
  {
    hide RunOf, Exhausted, Count;
    var k := |order| - 1;
    var front, b := Offers(state, before, config, pending, order[..k]), order[k];
    var run := RunOf(state, before, config, b, pending[b]);
    assert before + (front + run) == (before + front) + run;
    if a == b {
      AbsentDoesNotCount(state, before, config, pending, order[..k], a);
      OfferUnaffected(state, before, front, config, a, pending[a]);
      OfferExhausts(state, before + front, config, a, pending[a]);
    } else {
      OffersExhaust(state, before, config, pending, order[..k], a);
      forall j | 0 <= j < |run|
        ensures run[j].from != a
      {
        OfferEntry(state, before, config, b, pending[b], j);
      }
      OthersDoNotCount(run, a);
      StaysExhausted(state, before + front, run, config, a, pending[a]);
    }
  }

  lemma BuiltIsMaximal(state: World, before: seq<Tx>, config: GovConfig, pending: map<Address, seq<Tx>>,
                       order: seq<Address>)
    requires GapFreeLists(pending) && IsOrder(order, pending)
    ensures Maximal(state, before, config, Built(state, before, config, pending, order), pending, order)
  {
    hide Fit, SignedGas, Exhausted, Eligible, Offers;
    var offers, built := Offers(state, before, config, pending, order), Built(state, before, config, pending, order);
    FitIsBeginning(0, offers, config.blockGasLimit);
    if |built| < |offers| {
      var t := offers[|built|];
      OffersEntry(state, before, config, pending, order, |built|);
      assert offers[..|built|] == built;
      assert EndedAt(state, before, config, built, t.from, pending[t.from], t);
    } else {
      assert built == offers;
      forall a | a in order && a in pending
        ensures Exhausted(state, before + built, config, a, pending[a])
      {
        OffersExhaust(state, before, config, pending, order, a);
      }
    }
  }

  /******* When every payload is accepted *******/

  lemma {:induction false} SignedGasConcat(p: seq<Tx>, q: seq<Tx>)
    ensures SignedGas(p + q) == SignedGas(p) + SignedGas(q)
    decreases |p|
  {
    if p == [] {
      assert p + q == q;
    } else {
      assert (p + q)[1..] == p[1..] + q;
      SignedGasConcat(p[1..], q);
    }
  }

  /** Through `int64`, gas limits below 2^63 add up to their sum, and each of the others to 2^64 less. */
  lemma {:induction false} SignedGasIsGas(txs: seq<Tx>)
    ensures GasBelowI63(txs) ==> SignedGas(txs) == GasSum(txs)
    ensures SignedGas(txs) <= GasSum(txs)
    ensures !GasBelowI63(txs) ==> SignedGas(txs) + U64 <= GasSum(txs)
    decreases |txs|
  {
    if txs != [] {
      SignedGasIsGas(txs[1..]);
      if GasBelowI63(txs[1..]) && txs[0].gas < I63 {
        forall i | 0 <= i < |txs|
          ensures txs[i].gas < I63
        {
          assert i > 0 ==> txs[i] == txs[1..][i - 1];
        }
      }
      if GasBelowI63(txs) {
        forall i | 0 <= i < |txs[1..]|
          ensures txs[1..][i].gas < I63
        {
          assert txs[1..][i] == txs[i + 1];
        }
      }
    }
  }

  lemma BelowI63Parts(p: seq<Tx>, q: seq<Tx>)
    ensures GasBelowI63(p + q) <==> GasBelowI63(p) && GasBelowI63(q)
  {
    if GasBelowI63(p + q) {
      forall i | 0 <= i < |p|
        ensures p[i].gas < I63
      {
        assert (p + q)[i] == p[i];
      }
      forall i | 0 <= i < |q|
        ensures q[i].gas < I63
      {
        assert (p + q)[|p| + i] == q[i];
      }
    }
  }

  /** The account's offer, alone in a block, takes in a gas limit of 2^63 or more. */
  ghost predicate ReachesI63(state: World, before: seq<Tx>, config: GovConfig, pending: map<Address, seq<Tx>>,
                             a: Address) {
    !GasBelowI63(Fit(0, OfferOf(state, before, config, pending, a), config.blockGasLimit))
  }

  /** If no account's own offer reaches 2^63, no payload does. */
  lemma {:induction false} NoneReached(state: World, before: seq<Tx>, config: GovConfig, pending: map<Address, seq<Tx>>,
                                       order: seq<Address>)
    requires forall i :: 0 <= i < |order| ==> !ReachesI63(state, before, config, pending, order[i])
    ensures GasBelowI63(Built(state, before, config, pending, order))
    decreases |order|
  {
    hide Fit, SignedGas, GasBelowI63;
    var limit := config.blockGasLimit;
    if order == [] {
      FitIsBeginning(0, [], limit);
      SmallNone();
    } else {
      var k := |order| - 1;
      var front := Offers(state, before, config, pending, order[..k]);
      var run := OfferOf(state, before, config, pending, order[k]);
      var taken := Fit(0, front, limit);
      NoneReached(state, before, config, pending, order[..k]);
      FitIsBeginning(0, front, limit);
      if |taken| < |front| {
        FitStops(0, front, run, limit);
      } else {
        assert taken == front;
        FitGoesOn(0, front, run, limit);
        SignedGasIsGas(front);
        FitLower(SignedGas(front), 0, run, limit);
        var alone, here := Fit(0, run, limit), Fit(0 + SignedGas(front), run, limit);
        assert alone == here + alone[|here|..];
        BelowI63Parts(here, alone[|here|..]);
        BelowI63Parts(front, here);
      }
    }
  }

  lemma SmallNone()
    ensures GasBelowI63([])
  {
  }

  /** The gas of all offers together. */
  ghost function Offered(state: World, before: seq<Tx>, config: GovConfig, pending: map<Address, seq<Tx>>): Sizes {
    map a | a in pending :: GasSum(OfferOf(state, before, config, pending, a))
  }

  /** The accounts left out of an order account for the difference to the total. */
  lemma {:induction false} OrderWithinTotal(state: World, before: seq<Tx>, config: GovConfig,
                                            pending: map<Address, seq<Tx>>, order: seq<Address>, m: Sizes)
    requires Distinct(order) && forall i :: 0 <= i < |order| ==> order[i] in m
    requires forall a :: a in m ==> m[a] == GasSum(OfferOf(state, before, config, pending, a))
    ensures GasSum(Offers(state, before, config, pending, order)) <= Sum(m)
    ensures (forall a :: a in m ==> a in order) ==> GasSum(Offers(state, before, config, pending, order)) == Sum(m)
    decreases |order|
  {
    hide Sum, GasSum, OfferOf;
    if order == [] {
      GasSumNil();
      if forall a :: a in m ==> a in order {
        NothingToSum(m);
      }
    } else {
      var k := |order| - 1;
      var a, fewer := order[k], m - {order[k]};
      SumRemove(m, a);
      OrderWithinTotal(state, before, config, pending, order[..k], fewer);
      GasSumConcat(Offers(state, before, config, pending, order[..k]), OfferOf(state, before, config, pending, a));
      if forall b :: b in m ==> b in order {
        forall b | b in fewer
          ensures b in order[..k]
        {
          var i :| 0 <= i < |order| && order[i] == b;
          assert order[..k][i] == b;
        }
      }
    }
  }

  lemma NothingToSum(m: Sizes)
    requires forall a :: a !in m
    ensures Sum(m) == 0
  {
    assert m == map[];
  }

  lemma GasSumBeginning(p: seq<Tx>, txs: seq<Tx>)
    requires p <= txs
    ensures GasSum(p) <= GasSum(txs)
  {
    assert txs == p + txs[|p|..];
    GasSumConcat(p, txs[|p|..]);
  }

  /** With one offer reaching 2^63 first in the order, the payload is over the limit if the offers together are. */
  lemma ReachedIsOver(state: World, before: seq<Tx>, config: GovConfig, pending: map<Address, seq<Tx>>,
                      order: seq<Address>)
    requires order != [] && ReachesI63(state, before, config, pending, order[0])
    requires GasSum(Offers(state, before, config, pending, order)) > config.blockGasLimit
    ensures GasSum(Built(state, before, config, pending, order)) > config.blockGasLimit
  {
    hide Fit, SignedGas, GasBelowI63, GasSum, Offers, OfferOf;
    var limit := config.blockGasLimit;
    var offers, built := Offers(state, before, config, pending, order), Built(state, before, config, pending, order);
    FitIsBeginning(0, offers, limit);
    if |built| < |offers| {
      var first, rest := OffersCons(state, before, config, pending, order);
      FirstReached(first, rest, limit);
      SignedGasIsGas(built);
    } else {
      assert built == offers;
    }
  }

  lemma FirstReached(first: seq<Tx>, rest: seq<Tx>, limit: nat)
    requires !GasBelowI63(Fit(0, first, limit))
    ensures !GasBelowI63(Fit(0, first + rest, limit))
  {
    hide Fit, SignedGas, GasBelowI63;
    FitIsBeginning(0, first, limit);
    var f := Fit(0, first, limit);
    if |f| < |first| {
      FitStops(0, first, rest, limit);
    } else {
      assert f == first;
      FitGoesOn(0, first, rest, limit);
      BelowI63Parts(first, Fit(0 + SignedGas(first), rest, limit));
    }
  }

  lemma {:induction false} OffersCons(state: World, before: seq<Tx>, config: GovConfig, pending: map<Address, seq<Tx>>,
                                      order: seq<Address>) returns (first: seq<Tx>, rest: seq<Tx>)
    requires order != []
    ensures first == OfferOf(state, before, config, pending, order[0])
    ensures Offers(state, before, config, pending, order) == first + rest
    decreases |order|
  {
    hide OfferOf;
    var k := |order| - 1;
    first, rest := OfferOf(state, before, config, pending, order[0]), [];
    if k == 0 {
      assert Offers(state, before, config, pending, order[..0]) == [];
      assert Offers(state, before, config, pending, order) == first + rest;
    } else {
      first, rest := OffersCons(state, before, config, pending, order[..k]);
      rest := rest + OfferOf(state, before, config, pending, order[k]);
    }
  }

  /** All accounts, with a given one first. */
  lemma {:induction false} OrderFrom(accounts: set<Address>, a: Address) returns (order: seq<Address>)
    requires a in accounts
    ensures order != [] && order[0] == a && Distinct(order)
    ensures forall b :: b in order <==> b in accounts
    decreases |accounts|
  {
    if accounts == {a} {
      order := [a];
    } else {
      var b :| b in accounts && b != a;
      order := OrderFrom(accounts - {b}, a);
      assert b !in order;
      order := order + [b];
    }
  }

  /** The sum through `int64` lets through a payload VerifyBlock refuses in some order of the accounts, exactly if
      some account's own offer takes in a gas limit of 2^63 or more and the offers together exceed the block. */
  lemma EveryPayloadAcceptedExactlyWhen(node: Node, v: View, round: nat, pending: map<Address, seq<Tx>>)
    requires v.chain != [] && node.gov(round).Some? && GapFreeLists(pending)
    ensures var state, before, config := Head(v), Flat(v.queue), node.gov(round).value;
            (forall order :: IsOrder(order, pending) ==>
               Acceptable(node, v, round, Built(state, before, config, pending, order)))
            <==>
            || (forall a :: a in pending ==> !ReachesI63(state, before, config, pending, a))
            || Sum(Offered(state, before, config, pending)) <= config.blockGasLimit
  {
    hide Extends, PricesAtLeast, GasSum, Sum, ReachesI63, Built;
    var state, before, config := Head(v), Flat(v.queue), node.gov(round).value;
    if (forall a :: a in pending ==> !ReachesI63(state, before, config, pending, a)) ||
       Sum(Offered(state, before, config, pending)) <= config.blockGasLimit {
      forall order | IsOrder(order, pending)
        ensures Acceptable(node, v, round, Built(state, before, config, pending, order))
      {
        BuiltExtends(state, before, config, pending, order);
        BuiltWithin(state, before, config, pending, order);
      }
    } else {
      var a :| a in pending && ReachesI63(state, before, config, pending, a);
      var order := OrderFrom(pending.Keys, a);
      OrderWithinTotal(state, before, config, pending, order, Offered(state, before, config, pending));
      ReachedIsOver(state, before, config, pending, order);
      assert IsOrder(order, pending) && !Acceptable(node, v, round, Built(state, before, config, pending, order));
    }
  }

  lemma BuiltWithin(state: World, before: seq<Tx>, config: GovConfig, pending: map<Address, seq<Tx>>,
                    order: seq<Address>)
    requires GapFreeLists(pending) && IsOrder(order, pending)
    requires || (forall a :: a in pending ==> !ReachesI63(state, before, config, pending, a))
             || Sum(Offered(state, before, config, pending)) <= config.blockGasLimit
    ensures GasSum(Built(state, before, config, pending, order)) <= config.blockGasLimit
  {
    hide GasSum, Sum, ReachesI63, Fit, Offers, SignedGas, GasBelowI63, OfferOf;
    var offers := Offers(state, before, config, pending, order);
    FitIsBeginning(0, offers, config.blockGasLimit);
    if forall a :: a in pending ==> !ReachesI63(state, before, config, pending, a) {
      NoneReached(state, before, config, pending, order);
      SignedGasIsGas(Built(state, before, config, pending, order));
    } else {
      OrderWithinTotal(state, before, config, pending, order, Offered(state, before, config, pending));
      GasSumBeginning(Built(state, before, config, pending, order), offers);
    }
  }

  /******* The loops *******/

  datatype Attempt = Taken | Skipped | BlockFull | Overflow

  /** The checks on price, gas and running balance say whether a transaction is eligible. */
  lemma EligibleByBalance(state: World, before: seq<Tx>, config: GovConfig, t: Tx, balance: int)
    requires balance == BalanceOf(state, t.from) - Spend(before, t.from)
    ensures Eligible(state, before, config, t) <==>
              config.minGasPrice <= t.price && CoversIntrinsic(t, true) && balance - Cost(t) >= 0
  {
    hide Cost, Spend, CoversIntrinsic;
  }

  /** The checks on one transaction that carries the expected nonce. */
  method AppendOne(t: Tx, gasUsed: int, balance: int, config: GovConfig, state: World, ghost before: seq<Tx>)
    returns (r: Attempt)
    requires balance == BalanceOf(state, t.from) - Spend(before, t.from)
    ensures r.Skipped? || r.Overflow? <==> !Eligible(state, before, config, t)
    ensures r.Overflow? <==> config.minGasPrice <= t.price && Overflows(t)
    ensures r.BlockFull? <==> Eligible(state, before, config, t) && gasUsed + Signed(t.gas) > config.blockGasLimit
  {
    hide Cost, IntrinsicGas, Signed, Spend, Eligible;
    EligibleByBalance(state, before, config, t, balance);
    if config.minGasPrice > t.price {
      return Skipped;
    }
    var intrinsic := IntrinsicGas(t.data, t.to.None?, true);
    if intrinsic.None? {
      return Overflow;
    }
    if t.gas < intrinsic.value {
      return Skipped;
    }
    if balance - Cost(t) < 0 {
      return Skipped;
    }
    if gasUsed + Signed(t.gas) > config.blockGasLimit {
      return BlockFull;
    }
    return Taken;
  }

  /** The transaction after the account's offer is dear enough and its intrinsic gas does not fit 64 bits. */
  ghost predicate Trips(state: World, before: seq<Tx>, config: GovConfig, a: Address, txs: seq<Tx>) {
    exists t :: TripsOver(state, before + RunOf(state, before, config, a, txs), config, a, txs, t)
  }

  ghost predicate TripsOver(state: World, before: seq<Tx>, config: GovConfig, a: Address, txs: seq<Tx>, t: Tx) {
    t in txs && t.nonce == NextNonce(state, before, a) && config.minGasPrice <= t.price && Overflows(t)
  }

  /** In a gap-free list at most one transaction has the nonce. */
  lemma TripsHere(state: World, before: seq<Tx>, config: GovConfig, a: Address, txs: seq<Tx>, i: nat)
    requires GapFree(a, txs) && i < |txs|
    requires txs[i].nonce == NextNonce(state, before + RunOf(state, before, config, a, txs), a)
    ensures Trips(state, before, config, a, txs) <==> config.minGasPrice <= txs[i].price && Overflows(txs[i])
  {
    hide NextNonce, RunOf, Overflows;
    var longer := before + RunOf(state, before, config, a, txs);
    assert config.minGasPrice <= txs[i].price && Overflows(txs[i]) ==> TripsOver(state, longer, config, a, txs, txs[i]);
    forall t | TripsOver(state, longer, config, a, txs, t)
      ensures t == txs[i]
    {
    }
  }

  lemma TripsNowhere(state: World, before: seq<Tx>, config: GovConfig, a: Address, txs: seq<Tx>)
    requires forall t :: t in txs ==> t.nonce != NextNonce(state, before + RunOf(state, before, config, a, txs), a)
    ensures !Trips(state, before, config, a, txs)
  {
  }

  lemma PastTheEnd(a: Address, txs: seq<Tx>)
    requires GapFree(a, txs) && 0 < |txs| < I63
    ensures forall t :: t in txs ==> t.nonce != Inc(txs[|txs| - 1].nonce)
  {
  }

  /** The inner loop: what the block takes of the account's offer. `stop` means the block is full. */
  method AppendAccount(a: Address, txs: seq<Tx>, start: seq<Tx>, startGas: int, available: int, expectNonce: uint64,
                       config: GovConfig, state: World, ghost before: seq<Tx>)
    returns (overflow: bool, stop: bool, all: seq<Tx>, gasUsed: int)
    requires GapFree(a, txs) && 0 < |txs| < I63
    requires available == BalanceOf(state, a) - Spend(before, a) && expectNonce == NextNonce(state, before, a)
    ensures var offer := RunOf(state, before, config, a, txs);
            overflow <==>
              |Fit(startGas, offer, config.blockGasLimit)| == |offer| && Trips(state, before, config, a, txs)
    ensures !overflow ==>
              var offer := RunOf(state, before, config, a, txs);
              && all == start + Fit(startGas, offer, config.blockGasLimit)
              && gasUsed == startGas + SignedGas(Fit(startGas, offer, config.blockGasLimit))
              && (stop <==> |Fit(startGas, offer, config.blockGasLimit)| < |offer|)
  {
    hide Cost, NextNonce, Spend, Eligible, Signed, Inc, Overflows, Fit, SignedGas, Run, Filling, Trips;
    overflow, stop, all, gasUsed := false, false, start, startGas;
    var limit := config.blockGasLimit;
    var balance := available;
    StartIndex(a, txs, expectNonce);
    var i := StartAt(txs, expectNonce);
    ghost var offer := RunOf(state, before, config, a, txs);
    ghost var taken: seq<Tx> := [];
    assert before + taken == before && start + taken == start;
    FillStart(offer, startGas, limit);
    while 0 <= i < |txs|
      invariant balance == BalanceOf(state, a) - Spend(before + taken, a)
      invariant 0 <= i < |txs| ==> txs[i].nonce == NextNonce(state, before + taken, a)
      invariant !(0 <= i < |txs|) ==> forall t :: t in txs ==> t.nonce != NextNonce(state, before + taken, a)
      invariant all == start + taken && gasUsed == startGas + SignedGas(taken)
      invariant Filling(offer, taken, RestFrom(state, before + taken, config, txs, i), startGas, limit)
      decreases |txs| - i
    {
      var t := txs[i];
      var attempt := AppendOne(t, gasUsed, balance, config, state, before + taken);
      RunNext(state, before + taken, config, txs, i);
      match attempt {
        case Skipped =>
          FillDone(offer, taken, startGas, limit);
          TripsHere(state, before, config, a, txs, i);
          return;
        case Overflow =>
          FillDone(offer, taken, startGas, limit);
          TripsHere(state, before, config, a, txs, i);
          overflow := true;
          return;
        case BlockFull =>
          FillFull(offer, taken, t, Run(state, before + taken + [t], config, txs, i + 1), startGas, limit);
          stop := true;
          return;
        case Taken =>
          ghost var longer := taken + [t];
          assert (before + taken) + [t] == before + longer;
          TakeEffect(state, before + taken, t);
          FillStep(offer, taken, t, Run(state, before + longer, config, txs, i + 1), startGas, limit);
          if i + 1 < |txs| {
            NextInList(a, txs, i + 1);
          } else {
            RunAtEnd(state, before + longer, config, txs);
            PastTheEnd(a, txs);
          }
          all, gasUsed, balance := all + [t], gasUsed + Signed(t.gas), balance - Cost(t);
          taken := longer;
          i := i + 1;
      }
    }
    FillDone(offer, taken, startGas, limit);
    TripsNowhere(state, before, config, a, txs);
  }

  ghost function RestFrom(state: World, before: seq<Tx>, config: GovConfig, txs: seq<Tx>, i: int): seq<Tx> {
    if 0 <= i < |txs| then Run(state, before, config, txs, i) else []
  }

  lemma RunNext(state: World, before: seq<Tx>, config: GovConfig, txs: seq<Tx>, i: nat)
    requires i < |txs|
    ensures Run(state, before, config, txs, i) ==
              if Eligible(state, before, config, txs[i])
              then [txs[i]] + Run(state, before + [txs[i]], config, txs, i + 1) else []
  {
  }

  lemma RunAtEnd(state: World, before: seq<Tx>, config: GovConfig, txs: seq<Tx>)
    ensures Run(state, before, config, txs, |txs|) == []
  {
  }

  /** The block has taken the first part of an offer completely. */
  ghost predicate Filling(offer: seq<Tx>, taken: seq<Tx>, rest: seq<Tx>, used: int, limit: nat) {
    offer == taken + rest && Fit(used, taken, limit) == taken
  }

  lemma FillStart(offer: seq<Tx>, used: int, limit: nat)
    ensures Filling(offer, [], offer, used, limit) && SignedGas([]) == 0
  {
  }

  lemma FillDone(offer: seq<Tx>, taken: seq<Tx>, used: int, limit: nat)
    requires Filling(offer, taken, [], used, limit)
    ensures Fit(used, offer, limit) == taken == offer
  {
    assert taken + [] == taken;
  }

  lemma FillFull(offer: seq<Tx>, taken: seq<Tx>, t: Tx, rest: seq<Tx>, used: int, limit: nat)
    requires Filling(offer, taken, [t] + rest, used, limit) && used + SignedGas(taken) + Signed(t.gas) > limit
    ensures Fit(used, offer, limit) == taken && |taken| < |offer|
  {
    hide Fit, SignedGas, Signed;
    FitGoesOn(used, taken, [t] + rest, limit);
    FitHead(used + SignedGas(taken), [t] + rest, limit);
    assert ([t] + rest)[0] == t && taken + [] == taken;
  }

  lemma FillStep(offer: seq<Tx>, taken: seq<Tx>, t: Tx, rest: seq<Tx>, used: int, limit: nat)
    requires Filling(offer, taken, [t] + rest, used, limit) && used + SignedGas(taken) + Signed(t.gas) <= limit
    ensures Filling(offer, taken + [t], rest, used, limit)
    ensures SignedGas(taken + [t]) == SignedGas(taken) + Signed(t.gas)
  {
    hide Signed;
    FitGoesOn(used, taken, [t], limit);
    SignedGasConcat(taken, [t]);
    assert [t][1..] == [] && taken + ([t] + rest) == (taken + [t]) + rest;
  }

  /** The accounts the outer loop gets to before the time runs out. */
  function Reached(order: seq<Address>, deadline: nat): seq<Address> {
    if deadline == 0 then [] else if |order| < deadline then order else order[..deadline - 1]
  }

  lemma ReachedIsOrder(order: seq<Address>, deadline: nat, pending: map<Address, seq<Tx>>)
    requires IsOrder(order, pending)
    ensures IsOrder(Reached(order, deadline), pending)
    ensures Reached(order, deadline) <= order
    ensures |Reached(order, deadline)| == (if deadline <= |order| then (if deadline == 0 then 0 else deadline - 1)
                                           else |order|)
    ensures forall a :: a in Reached(order, deadline) ==> a in order
  {
  }

  /** The payload after the accounts visited; `stop` if the block would not take their offers completely. */
  ghost predicate BuiltSoFar(state: World, before: seq<Tx>, config: GovConfig, pending: map<Address, seq<Tx>>,
                             visited: seq<Address>, all: seq<Tx>, gasUsed: int, stop: bool) {
    var offers := Offers(state, before, config, pending, visited);
    && all == Fit(0, offers, config.blockGasLimit) && gasUsed == SignedGas(all)
    && (stop <==> |all| < |offers|)
  }

  /** The block takes everything offered up to and including the account at `k`, and that account then trips. */
  ghost predicate TripsAt(state: World, before: seq<Tx>, config: GovConfig, pending: map<Address, seq<Tx>>,
                          order: seq<Address>, k: nat)
    requires k < |order| && order[k] in pending
  {
    var visited := order[..k + 1];
    && |Built(state, before, config, pending, visited)| == |Offers(state, before, config, pending, visited)|
    && Trips(state, before, config, order[k], pending[order[k]])
  }

  /** Some account reached trips. */
  ghost predicate TripsOnTheWay(state: World, before: seq<Tx>, config: GovConfig, pending: map<Address, seq<Tx>>,
                                order: seq<Address>)
    requires IsOrder(order, pending)
  {
    exists k :: 0 <= k < |order| && TripsAt(state, before, config, pending, order, k)
  }

  lemma TripsAtStep(state: World, before: seq<Tx>, config: GovConfig, pending: map<Address, seq<Tx>>,
                    order: seq<Address>, k: nat, start: seq<Tx>, startGas: int)
    requires k < |order| && order[k] in pending
    requires BuiltSoFar(state, before, config, pending, order[..k], start, startGas, false)
    ensures var offer := OfferOf(state, before, config, pending, order[k]);
            TripsAt(state, before, config, pending, order, k) <==>
              && |Fit(startGas, offer, config.blockGasLimit)| == |offer|
              && Trips(state, before, config, order[k], pending[order[k]])
  {
    hide Fit, SignedGas, Offers, OfferOf, Trips;
    var offer := OfferOf(state, before, config, pending, order[k]);
    var taken := Fit(startGas, offer, config.blockGasLimit);
    FitIsBeginning(startGas, offer, config.blockGasLimit);
    assert order[..k + 1] == order[..k] + [order[k]];
    BuildStep(state, before, config, pending, order[..k], order[k], start, startGas, start + taken,
              startGas + SignedGas(taken), |taken| < |offer|);
    FitIsBeginning(0, Offers(state, before, config, pending, order[..k + 1]), config.blockGasLimit);
  }

  /** Once the block is full nobody trips. */
  lemma FullNeverTrips(state: World, before: seq<Tx>, config: GovConfig, pending: map<Address, seq<Tx>>,
                       order: seq<Address>, k: nat, all: seq<Tx>, gasUsed: int, j: nat)
    requires k <= |order| && BuiltSoFar(state, before, config, pending, order[..k], all, gasUsed, true)
    requires k <= j < |order| && order[j] in pending
    ensures !TripsAt(state, before, config, pending, order, j)
  {
    hide Fit, Offers, Trips;
    assert order[..k] + order[k..j + 1] == order[..j + 1];
    FullStays(state, before, config, pending, order[..k], order[k..j + 1]);
  }

  lemma NothingTrips(state: World, before: seq<Tx>, config: GovConfig, pending: map<Address, seq<Tx>>,
                     order: seq<Address>, k: nat)
    requires k < |order| && order[k] in pending && pending[order[k]] == []
    ensures !TripsAt(state, before, config, pending, order, k)
  {
    hide Fit, Offers;
  }

  /** It does not matter whether the order goes on after the accounts reached. */
  lemma TripsInBoth(state: World, before: seq<Tx>, config: GovConfig, pending: map<Address, seq<Tx>>,
                    order: seq<Address>, deadline: nat, k: nat)
    requires IsOrder(order, pending) && k < |Reached(order, deadline)|
    ensures k < |order| && Reached(order, deadline)[k] == order[k]
    ensures TripsAt(state, before, config, pending, Reached(order, deadline), k) <==>
            TripsAt(state, before, config, pending, order, k)
  {
    hide Fit, Offers, Trips;
    assert Reached(order, deadline)[..k + 1] == order[..k + 1];
  }

  lemma TripsSomewhere(state: World, before: seq<Tx>, config: GovConfig, pending: map<Address, seq<Tx>>,
                       order: seq<Address>)
    requires IsOrder(order, pending) && TripsOnTheWay(state, before, config, pending, order)
    ensures exists a, t :: a in pending && t in pending[a] && Overflows(t)
  {
    hide Fit, Offers, Overflows, RunOf, NextNonce;
    var k :| 0 <= k < |order| && TripsAt(state, before, config, pending, order, k);
    var a := order[k];
    var t :| TripsOver(state, before + RunOf(state, before, config, a, pending[a]), config, a, pending[a], t);
    assert a in pending && t in pending[a] && Overflows(t);
  }

  lemma BuildStart(state: World, before: seq<Tx>, config: GovConfig, pending: map<Address, seq<Tx>>,
                   order: seq<Address>)
    ensures BuiltSoFar(state, before, config, pending, order[..0], [], 0, false)
  {
    assert order[..0] == [];
  }

  /** One more account, after everything before was taken completely. */
  lemma BuildStep(state: World, before: seq<Tx>, config: GovConfig, pending: map<Address, seq<Tx>>,
                  visited: seq<Address>, a: Address, start: seq<Tx>, startGas: int, all: seq<Tx>, gasUsed: int,
                  stop: bool)
    requires BuiltSoFar(state, before, config, pending, visited, start, startGas, false)
    requires var offer := OfferOf(state, before, config, pending, a);
             var taken := Fit(startGas, offer, config.blockGasLimit);
             all == start + taken && gasUsed == startGas + SignedGas(taken) && (stop <==> |taken| < |offer|)
    ensures BuiltSoFar(state, before, config, pending, visited + [a], all, gasUsed, stop)
  {
    hide Fit, SignedGas, OfferOf;
    var limit := config.blockGasLimit;
    var front, offer := Offers(state, before, config, pending, visited), OfferOf(state, before, config, pending, a);
    var taken := Fit(startGas, offer, limit);
    var longer := visited + [a];
    assert longer[..|longer| - 1] == visited;
    FitIsBeginning(0, front, limit);
    assert start == front;
    FitGoesOn(0, front, offer, limit);
    SignedGasConcat(front, taken);
  }

  lemma BuildNothing(state: World, before: seq<Tx>, config: GovConfig, pending: map<Address, seq<Tx>>,
                     visited: seq<Address>, a: Address, all: seq<Tx>, gasUsed: int)
    requires BuiltSoFar(state, before, config, pending, visited, all, gasUsed, false)
    requires a in pending && pending[a] == []
    ensures BuiltSoFar(state, before, config, pending, visited + [a], all, gasUsed, false)
  {
    assert OfferOf(state, before, config, pending, a) == [];
    assert all + [] == all;
    BuildStep(state, before, config, pending, visited, a, all, gasUsed, all, gasUsed, false);
  }

  /** A payload that is full stays as it is whoever would come next. */
  lemma {:induction false} FullStays(state: World, before: seq<Tx>, config: GovConfig, pending: map<Address, seq<Tx>>,
                                     visited: seq<Address>, more: seq<Address>)
    requires |Fit(0, Offers(state, before, config, pending, visited), config.blockGasLimit)| <
             |Offers(state, before, config, pending, visited)|
    ensures Built(state, before, config, pending, visited + more) == Built(state, before, config, pending, visited)
    ensures var order := visited + more;
            |Built(state, before, config, pending, order)| < |Offers(state, before, config, pending, order)|
    decreases |more|
  {
    hide Fit, OfferOf;
    if more == [] {
      assert visited + more == visited;
    } else {
      var k := |more| - 1;
      FullStays(state, before, config, pending, visited, more[..k]);
      var all := visited + more;
      assert all[..|all| - 1] == visited + more[..k] && all[|all| - 1] == more[k];
      FitStops(0, Offers(state, before, config, pending, visited + more[..k]),
               OfferOf(state, before, config, pending, more[k]), config.blockGasLimit);
    }
  }

  /** When the outer loop ends, by any of its three ways, the payload is the one built from the accounts reached. */
  lemma BuildEnds(state: World, before: seq<Tx>, config: GovConfig, pending: map<Address, seq<Tx>>, order: seq<Address>,
                  k: nat, deadline: nat, all: seq<Tx>, gasUsed: int, stop: bool)
    requires k <= |order| && deadline > 0 && (k > 0 ==> k < deadline)
    requires k == |order| || k + 1 >= deadline || stop
    requires BuiltSoFar(state, before, config, pending, order[..k], all, gasUsed, stop)
    ensures all == Built(state, before, config, pending, Reached(order, deadline))
  {
    hide Fit, Offers;
    var reached := Reached(order, deadline);
    assert order[..k] == reached[..k];
    if stop {
      FullStays(state, before, config, pending, reached[..k], reached[k..]);
      assert reached[..k] + reached[k..] == reached;
    } else {
      assert order[..k] == reached;
    }
  }

  lemma SmallPayload(all: seq<Tx>, pending: map<Address, seq<Tx>>)
    requires forall t :: t in all ==> t.from in pending && t in pending[t.from]
    requires forall a :: a in pending ==> GasBelowI63(pending[a])
    ensures GasBelowI63(all)
  {
    forall i | 0 <= i < |all|
      ensures all[i].gas < I63
    {
      var t := all[i];
      assert t in all;
      var j :| 0 <= j < |pending[t.from]| && pending[t.from][j] == t;
    }
  }

  /** Everything a payload built from the accounts reached is known for. */
  lemma BuiltFacts(node: Node, v: View, round: nat, pending: map<Address, seq<Tx>>, order: seq<Address>, deadline: nat)
    requires v.chain != [] && node.gov(round).Some? && GapFreeLists(pending) && IsOrder(order, pending)
    ensures var state, before, config := Head(v), Flat(v.queue), node.gov(round).value;
            var txs := Built(state, before, config, pending, Reached(order, deadline));
            && Extends(state, before, txs) && PricesAtLeast(txs, config.minGasPrice)
            && SignedGas(txs) <= config.blockGasLimit
            && (forall t :: t in txs ==> t.from in order && t in pending[t.from])
            && Maximal(state, before, config, txs, pending, Reached(order, deadline))
            && ((forall a :: a in pending ==> GasBelowI63(pending[a])) ==> Acceptable(node, v, round, txs))
  {
    hide Extends, Maximal, Built, Flat, SignedGas, GasBelowI63, PricesAtLeast, Acceptable;
    var state, before, config := Head(v), Flat(v.queue), node.gov(round).value;
    var reached := Reached(order, deadline);
    ReachedIsOrder(order, deadline, pending);
    BuiltExtends(state, before, config, pending, reached);
    BuiltIsMaximal(state, before, config, pending, reached);
    if forall a :: a in pending ==> GasBelowI63(pending[a]) {
      SmallPayload(Built(state, before, config, pending, reached), pending);
      AcceptableBySmallGas(node, v, round, Built(state, before, config, pending, reached));
    }
  }

  lemma AcceptableBySmallGas(node: Node, v: View, round: nat, txs: seq<Tx>)
    requires v.chain != [] && node.gov(round).Some? && GasBelowI63(txs)
    requires Extends(Head(v), Flat(v.queue), txs) && PricesAtLeast(txs, node.gov(round).value.minGasPrice)
    requires SignedGas(txs) <= node.gov(round).value.blockGasLimit
    ensures Acceptable(node, v, round, txs)
  {
    hide Extends, Flat;
    SignedGasIsGas(txs);
  }

  /** What the pool admits is far too small for its intrinsic gas to overflow. */
  lemma SmallDataNeverOverflows(t: Tx)
    requires |t.data| <= 32 * 1024
    ensures !Overflows(t)
  {
    DataGasBound(t.data);
  }

  lemma {:induction false} DataGasBound(data: seq<byte>)
    ensures DataGas(data) <= 68 * |data|
  {
    if data != [] {
      DataGasBound(data[..|data| - 1]);
    }
  }

  /******* An instance *******/

  /** The offer of a single eligible transaction. */
  lemma SingleOffer(world: World, config: GovConfig, a: Address, t: Tx)
    requires t.from == a && t.nonce == NextNonce(world, [], a) && Eligible(world, [], config, t)
    ensures GapFree(a, [t]) && Offers(world, [], config, map[a := [t]], [a]) == [t]
  {
    hide Eligible, NextNonce, Run;
    var txs, pending, order := [t], map[a := [t]], [a];
    assert StartAt(txs, t.nonce) == 0;
    RunNext(world, [], config, txs, 0);
    RunAtEnd(world, [] + [t], config, txs);
    assert OfferOf(world, [], config, pending, a) == [t];
    assert order[..0] == [];
    assert Offers(world, [], config, pending, order[..0]) == [];
  }

  /** A free transaction with a gas limit of 2^63 or more is offered, the block takes it because its gas counts as
      negative, and it is more than the block holds. */
  lemma OversizedIsBuilt(world: World, config: GovConfig, t: Tx)
    requires Free(t) && t.gas >= I63 && t.nonce == NonceOf(world, t.from)
    requires config.minGasPrice == 0 && config.blockGasLimit < I63
    ensures Built(world, [], config, map[t.from := [t]], [t.from]) == [t]
    ensures GapFree(t.from, [t]) && !Overflows(t) && GasSum([t]) > config.blockGasLimit
  {
    hide Spend, Fits, Advance, Eligible, Offers, GapFree, Fit, SignedGas;
    NothingBefore(NonceOf(world, t.from), t.from);
    FreeFits(world, [], t);
    FitsIsEligible(world, [], config, t);
    SingleOffer(world, config, t.from, t);
    FitHead(0, [t], config.blockGasLimit);
    FitNothing(0 + Signed(t.gas), config.blockGasLimit);
    assert [t][1..] == [];
  }

  lemma FitsIsEligible(state: World, before: seq<Tx>, config: GovConfig, t: Tx)
    requires Fits(state, before, t) && config.minGasPrice <= t.price
    ensures Eligible(state, before, config, t)
  {
  }
}
