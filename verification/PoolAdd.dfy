/** What adding a transaction may do to the others (add in core/tx_pool.go). */
module PoolAdd {
  import opened Types
  import opened Gas
  import opened SortedMap
  import opened TxList
  import opened PoolLists
  import opened PoolCore
  import opened PoolNonces
  import opened PoolLevels
  import opened Sums

  datatype PoolError =
    | KnownTransaction | OversizedData | GasLimit | Underpriced | NonceTooLow
    | InsufficientFunds | OutOfGas | IntrinsicTooLow | ReplaceUnderpriced

  /** `d` had the place of the accepted `tx` and paid less. */
  predicate GaveWay(d: Tx, tx: Tx) {
    d.from == tx.from && d.nonce == tx.nonce && d.price < tx.price
  }

  /** `d` goes before `k`: it is cheaper, or as cheap and not of a lower nonce. */
  predicate GoesFirst(d: Tx, k: Tx) {
    d.price < k.price || (d.price == k.price && d.nonce >= k.nonce)
  }

  /** `d` was remote and goes before every remote transaction that stayed. */
  ghost predicate MadeRoom(d: Tx, all': set<Tx>, tx: Tx, locals: set<Address>) {
    d.from !in locals && forall k :: k in all' && k != tx && k.from !in locals ==> GoesFirst(d, k)
  }

  /** How the known transactions change when `tx` is offered to a pool of at most `limit`. */
  ghost predicate Offered(all: set<Tx>, all': set<Tx>, tx: Tx, accepted: bool, locals: set<Address>, limit: nat) {
    && (accepted <==> tx in all') && all' <= all + {tx}
    && (forall d :: d in all && d !in all' ==>
        (accepted && GaveWay(d, tx)) || (|all| >= limit && MadeRoom(d, all', tx, locals)))
  }

  /** What discarding achieves: only from a full pool, only remote ones, none dearer than one that stays. */
  ghost predicate RoomOk(all: set<Tx>, all1: set<Tx>, locals: set<Address>, limit: nat) {
    && all1 <= all && (|all| < limit ==> all1 == all)
    && (|all| >= limit ==> |all1| >= limit - 1)
    && (forall d :: d in all && d !in all1 ==> d.from !in locals)
    && (forall d, k :: d in all && d !in all1 && k in all1 && k.from !in locals ==> GoesFirst(d, k))
  }

  lemma OfferRefused(all: set<Tx>, all1: set<Tx>, tx: Tx, locals: set<Address>, limit: nat)
    requires RoomOk(all, all1, locals, limit) && tx !in all
    ensures Offered(all, all1, tx, false, locals, limit)
  {
  }

  lemma OfferTaken(all: set<Tx>, all1: set<Tx>, tx: Tx, gone: set<Tx>, locals: set<Address>, limit: nat)
    requires RoomOk(all, all1, locals, limit) && tx !in all && forall d :: d in gone ==> GaveWay(d, tx)
    ensures Offered(all, all1 - gone + {tx}, tx, true, locals, limit)
  {
    forall d | d in all && d !in all1 - gone + {tx}
      ensures GaveWay(d, tx) || (|all| >= limit && MadeRoom(d, all1 - gone + {tx}, tx, locals))
    {
      if d !in gone {
        assert d !in all1;
      }
    }
  }

  /** Offering a transaction that is not hopeless leaves nothing hopeless. */
  lemma OfferKeepsHope(all: set<Tx>, all': set<Tx>, tx: Tx, accepted: bool, locals: set<Address>, limit: nat, w: World,
                       maxGas: nat)
    requires NoneHopeless(all, w, maxGas) && Offered(all, all', tx, accepted, locals, limit)
    requires accepted ==> !Hopeless(tx, w, maxGas)
    ensures NoneHopeless(all', w, maxGas)
  {
    hide Hopeless;
  }

  lemma OfferTakenIn(all: set<Tx>, all': set<Tx>, tx: Tx, accepted: bool, locals: set<Address>, limit: nat, w: World,
                     maxGas: nat)
    requires accepted ==> Offered(all, all', tx, accepted, locals, limit) && NoneHopeless(all', w, maxGas)
    ensures accepted ==> tx in all' && !Hopeless(tx, w, maxGas)
  {
    hide Hopeless;
  }

  /** A full pool with nothing cheaper than the newcomer, who has no local privilege. */
  ghost predicate Crowded(all: set<Tx>, tx: Tx, local: bool, locals: set<Address>, limit: nat) {
    |all| >= limit && !local && tx.from !in locals && all != {} && forall t :: t in all ==> t.price >= tx.price
  }

  /** The lists a transaction is filed in, after making room by dropping `drop`. */
  datatype Room = Room(drop: seq<Tx>, p: Lists, q: Lists)

  /** Filing: an executable place if its nonce has one, else the queue; accepted exactly by the price rule. */
  ghost predicate FiledIn(room: Room, tx: Tx, priceBump: nat, accepted: bool, replaced: bool, p': Lists, q': Lists) {
    var executable := tx.nonce in Get(room.p, tx.from);
    var lists := if executable then room.p else room.q;
    && accepted == Replaces(Get(lists, tx.from), tx, priceBump)
    && replaced == (accepted && tx.nonce in Get(lists, tx.from))
    && p' == (if accepted && executable then Put(room.p, tx) else room.p)
    && q' == (if accepted && !executable then Put(room.q, tx) else room.q)
  }

  lemma RoomFromDiscard(all: set<Tx>, drop: seq<Tx>, locals: set<Address>, limit: nat)
    requires |all| >= limit >= 1 && |drop| <= |all| - (limit - 1)
    requires forall t :: t in drop ==> t in all && t.from !in locals
    requires forall d, k :: d in drop && k in all && k.from !in locals && k !in drop ==> GoesFirst(d, k)
    ensures RoomOk(all, all - Elems(drop), locals, limit)
  {
    ElemsSize(drop);
    assert all == (all - Elems(drop)) + Elems(drop);
  }

  /** Discarding at least one finds a remote transaction if there is any. */
  lemma DiscardFindsOne(all: set<Tx>, drop: seq<Tx>, locals: set<Address>, count: nat)
    requires count >= 1 && (forall t :: t in drop ==> t in all)
    requires |drop| < count ==> forall k :: k in all && k.from !in locals ==> k in drop
    ensures all - Elems(drop) != all || forall t :: t in all - Elems(drop) ==> t.from in locals
  {
    if drop != [] {
      assert drop[0] in Elems(drop);
      assert drop[0] in all && drop[0] !in all - Elems(drop);
    }
  }

  /** Discarding leaves room for one more, unless a transaction was handed out twice or only local ones are left. */
  lemma DiscardSuffices(all: set<Tx>, drop: seq<Tx>, locals: set<Address>, limit: nat)
    requires |all| >= limit >= 1 && (forall t :: t in drop ==> t in all)
    requires |drop| < |all| - (limit - 1) ==> forall k :: k in all && k.from !in locals ==> k in drop
    ensures || |all - Elems(drop)| + |Elems(drop)| < limit + |drop|
            || forall t :: t in all - Elems(drop) ==> t.from in locals
  {
    assert all == (all - Elems(drop)) + Elems(drop);
  }

  lemma FiledSame(room: Room, room': Room, tx: Tx, priceBump: nat, accepted: bool, replaced: bool, p': Lists, q': Lists)
    requires FiledIn(room, tx, priceBump, accepted, replaced, p', q') && room.p == room'.p && room.q == room'.q
    ensures FiledIn(room', tx, priceBump, accepted, replaced, p', q')
  {
  }

  lemma RoomUntouched(all: set<Tx>, locals: set<Address>, limit: nat)
    ensures RoomOk(all, all, locals, limit)
  {
  }

  /** Replacing an executable transaction changes no nonce. */
  lemma ReplacementKeeps(p: Lists, pn: Nonces, w: World, t: Tx)
    requires GapFree(p, w) && Tracks(p, pn, w) && t.nonce in Get(p, t.from)
    ensures var p' := Put(p, t);
            GapFree(p', w) && Tracks(p', pn, w) && SameTracking(p, pn, p', pn, w)
  {
    var p' := Put(p, t);
    forall a
      ensures GapFreeAt(p', w, a) && TracksAt(p', pn, w, a)
      ensures UpToDateAt(p', pn, w, a) <==> UpToDateAt(p, pn, w, a)
    {
      assert GapFreeAt(p, w, a) && TracksAt(p, pn, w, a);
      if a == t.from {
        SameKeys(Get(p, a), t);
      } else {
        assert Get(p', a) == Get(p, a);
      }
    }
  }

  lemma SameKeys(items: Items, t: Tx)
    requires t.nonce in items
    ensures var items' := items[t.nonce := t];
            |items'| == |items| && items'.Keys == items.Keys && items' != map[] && items != map[]
  {
    var items' := items[t.nonce := t];
    assert items'.Keys == items.Keys;
    assert |items'| == |items'.Keys| && |items| == |items.Keys|;
  }

  /** What is replaced is of the same account and nonce and cheaper. */
  lemma OccupantGivesWay(p: Lists, q: Lists, all: set<Tx>, tx: Tx, priceBump: nat)
    requires Core(p, q, all, {}) && Replaces(Get(p, tx.from), tx, priceBump)
    ensures forall d :: d in Occupant(p, tx) ==> GaveWay(d, tx)
  {
    assert FiledAt(p, tx.from);
  }

  lemma SlotApart(p: Lists, q: Lists, all: set<Tx>, t: Tx)
    requires Core(p, q, all, {}) && t.nonce in Get(p, t.from)
    ensures t.nonce !in Get(q, t.from)
  {
    assert ApartAt(p, q, t.from);
  }

  /** A gap-free list in nonce order has consecutive nonces. */
  lemma FlatContinues(p: Lists, q: Lists, all: set<Tx>, w: World, a: Address)
    requires Core(p, q, all, {}) && GapFree(p, w)
    ensures Continues(Sorted(Get(p, a)), a, NonceOf(w, a))
  {
    assert FiledAt(p, a) && GapFreeAt(p, w, a);
    SortedContinues(Get(p, a), a, NonceOf(w, a));
  }

  lemma ContinuesCons(t: Tx, txs: seq<Tx>, a: Address)
    requires t.from == a && Continues(txs, a, t.nonce + 1)
    ensures Continues([t] + txs, a, t.nonce)
  {
    var more := [t] + txs;
    forall i | 0 <= i < |more|
      ensures more[i].from == a && more[i].nonce == t.nonce + i
    {
      if i > 0 {
        assert more[i] == txs[i - 1];
      }
    }
  }

  lemma {:induction false} SortedContinues(items: Items, a: Address, start: nat)
    requires KeyedFor(a, items) && GapFreeFrom(items, start)
    ensures Continues(Sorted(items), a, start)
    decreases |items|
  {
    if items == map[] {
      SortedEmpty();
    } else {
      hide Sorted, Continues;
      assert items.Keys != {} && |items| == |items.Keys|;
      assert start in items;
      SortedFirst(items, start);
      RemoveKey(items, start);
      SortedContinues(items - {start}, a, start + 1);
      ContinuesCons(items[start], Sorted(items - {start}), a);
    }
  }

  /******* What becomes of an accepted transaction *******/

  /** The states an offer passes through: room made, lists and nonces after filing, promotion, and what is known
      between the two global limits. */
  datatype Trace = Trace(room: Room, p: Lists, pn: Nonces, s: Promotion, kept: set<Tx>, level: nat)

  /** Promotion leaves the remote sender's queue full of lower nonces and `tx` is not executable. */
  ghost predicate QueueFull(s: Promotion, tx: Tx, locals: set<Address>, limit: nat) {
    && tx.from !in locals && !Listed(s.p', tx)
    && |Get(s.q', tx.from)| == limit && forall n :: n in Get(s.q', tx.from) ==> n < tx.nonce
  }

  /** There are too many executable transactions and `tx` lies above the level the remote accounts are cut to. */
  ghost predicate OverLevel(p: Lists, tx: Tx, locals: set<Address>, globalSlots: nat, level: nat, w: World) {
    Sum(SizesOf(p)) > globalSlots && tx.from !in locals && tx.nonce >= NonceOf(w, tx.from) + level
  }

  /** The surplus of queued transactions is at least what the remote sender has queued from `tx` up. */
  ghost predicate InSurplus(q: Lists, tx: Tx, locals: set<Address>, globalQueue: nat) {
    tx.from !in locals && |FromNonce(Get(q, tx.from), tx.nonce)| + globalQueue <= Sum(SizesOf(q))
  }

  /** Every other account with queued transactions is local. */
  ghost predicate OnlyRemote(q: Lists, a: Address, locals: set<Address>) {
    forall b :: b in q && b != a ==> b in locals
  }

  /** What becomes of a filed transaction. Its account's limit drops it exactly if the queue is full of lower nonces;
      the limit on executable ones exactly if it lies above the level; the limit on queued ones, which takes the
      accounts in some order, only together with everything of the sender above it and only if all that is within
      the surplus, and exactly then if the sender has the only remote queue. */
  ghost predicate Fate(s: Promotion, tx: Tx, locals: set<Address>, limit: nat, globalSlots: nat, globalQueue: nat,
                       level: nat, w: World, q': Lists, all': set<Tx>) {
    && (tx !in s.all' <==> QueueFull(s, tx, locals, limit))
    && (tx in s.all' ==> Listed(s.p', tx) || Listed(s.q', tx)) && all' <= s.all'
    && (Listed(s.p', tx) ==> (tx !in all' <==> OverLevel(s.p', tx, locals, globalSlots, level, w)))
    && (Listed(s.q', tx) && tx !in all' ==>
          InSurplus(s.q', tx, locals, globalQueue) && forall n :: n in Get(q', tx.from) ==> n < tx.nonce)
    && (Listed(s.q', tx) && OnlyRemote(s.q', tx.from, locals) ==>
          (tx !in all' <==> InSurplus(s.q', tx, locals, globalQueue)))
  }

  /** A filed transaction is gone after promotion exactly if its sender's queue is full. */
  lemma GoneByQueueLimit(s: Promotion, w: World, maxGas: nat, locals: set<Address>, limit: nat, tx: Tx)
    requires Core(s.p', s.q', s.all', {}) && Promoting(s, w, maxGas, locals, limit, {tx.from})
    requires tx in s.all && !Hopeless(tx, w, maxGas)
    ensures tx !in s.all' <==> QueueFull(s, tx, locals, limit)
  {
    hide Core, Hopeless, SettledAt;
    AllIsListed(s.p', s.q', s.all', tx);
    assert PromotingAt(s, w, maxGas, locals, limit, {tx.from}, tx.from);
  }

  /** A transaction stays known exactly as long as it keeps its place. */
  lemma KnownByPlace(s: Promotion, kept: set<Tx>, level: nat, locals: set<Address>, slots: nat, globalSlots: nat,
                     globalQueue: nat, p': Lists, q': Lists, all': set<Tx>, tx: Tx)
    requires Core(s.p', s.q', s.all', {}) && Core(p', q', all', {})
    requires Limited(s, kept, level, locals, slots, globalSlots, globalQueue, p', q', all')
    ensures all' <= s.all'
    ensures Listed(s.p', tx) ==>
              (tx in all' <==> tx.nonce in Get(p', tx.from)) && PartOf(Get(p', tx.from), Get(s.p', tx.from))
    ensures Listed(s.q', tx) ==>
              (tx in all' <==> tx.nonce in Get(q', tx.from)) && CutAtTop(Get(s.q', tx.from), Get(q', tx.from))
    ensures Listed(s.q', tx) && tx.from in locals ==> tx in all'
  {
    hide Core, QueueFits, Truncated, SizesOf;
    AllIsListed(s.p', s.q', s.all', tx);
    AllIsListed(p', q', all', tx);
    SlotOnce(s.p', s.q', s.all', tx);
    assert CutAtTopAt(s.q', q', {}, tx.from);
    assert PartOf(Get(p', tx.from), Get(s.p', tx.from));
  }

  lemma SlotOnce(p: Lists, q: Lists, all: set<Tx>, t: Tx)
    requires Core(p, q, all, {})
    ensures !(t.nonce in Get(p, t.from) && t.nonce in Get(q, t.from))
  {
    assert ApartAt(p, q, t.from);
  }

  /** An executable transaction is dropped exactly if it lies above the level. */
  lemma GoneByLevel(p: Lists, p': Lists, w: World, tx: Tx, locals: set<Address>, slots: nat, globalSlots: nat,
                    level: nat)
    requires GapFree(p, w) && GapFree(p', w) && Listed(p, tx) && PartOf(Get(p', tx.from), Get(p, tx.from))
    requires Truncated(SizesOf(p), locals, slots, globalSlots, level, SizesOf(p')) && slots >= 1
    ensures tx.nonce !in Get(p', tx.from) <==> OverLevel(p, tx, locals, globalSlots, level, w)
  {
    hide Sum;
    var a := tx.from;
    assert GapFreeAt(p, w, a) && GapFreeAt(p', w, a);
    assert a in p && SizesOf(p)[a] == |p[a]|;
    assert a in SizesOf(p') ==> a in p' && SizesOf(p')[a] == |p'[a]|;
  }

  /** What is gone from a list cut at the top, by numbers. */
  lemma GoneBySize(items: Items, rest: Items, n: nat)
    requires CutAtTop(items, rest) && n in items
    ensures n !in rest <==> |FromNonce(items, n)| + |rest| <= |items|
    ensures |FromNonce(items, n)| > 0
    ensures n !in rest ==> forall m :: m in rest ==> m < n
  {
    var low, high := BelowNonce(items, n), FromNonce(items, n);
    assert n in high.Keys;
    assert items.Keys == low.Keys + high.Keys && low.Keys !! high.Keys;
    assert |items| == |items.Keys| && |low| == |low.Keys| && |high| == |high.Keys| && |rest| == |rest.Keys|;
    if n !in rest {
      assert rest.Keys <= low.Keys;
      SubsetSize(rest.Keys, low.Keys);
    } else {
      forall m | m in low.Keys + {n}
        ensures m in rest.Keys
      {
      }
      SubsetSize(low.Keys + {n}, rest.Keys);
    }
  }

  /** The queues of the accounts, cut at the top, against the limit on all of them. */
  lemma SurplusBySize(q: Lists, q': Lists, all: set<Tx>, all': set<Tx>, a: Address, locals: set<Address>, limit: nat)
    requires NonEmpty(q) && NonEmpty(q') && (forall b :: PartOf(Get(q', b), Get(q, b)))
    requires forall b :: b in locals ==> Get(q', b) == Get(q, b)
    requires QueueFits(q, all, q', all', locals, limit) && a !in locals && Get(q, a) != map[]
    ensures |Get(q', a)| < |Get(q, a)| ==> |Get(q, a)| + limit <= Sum(SizesOf(q)) + |Get(q', a)|
    ensures OnlyRemote(q, a, locals) && Sum(SizesOf(q)) > limit ==>
              Get(q', a) == map[] || |Get(q, a)| + limit == Sum(SizesOf(q)) + |Get(q', a)|
  {
    hide Sum;
    var m, m' := SizesOf(q), SizesOf(q');
    forall b
      ensures b in q' ==> b in q && |q'[b]| <= |q[b]|
    {
      assert PartOf(Get(q', b), Get(q, b));
      SubsetSize(Get(q', b).Keys, Get(q, b).Keys);
      assert |Get(q', b)| == |Get(q', b).Keys| && |Get(q, b)| == |Get(q, b).Keys|;
    }
    SumDrops(m, m', a);
    assert Of(m, a) == |Get(q, a)| && Of(m', a) == |Get(q', a)|;
    if OnlyRemote(q, a, locals) {
      forall b | b in m && b != a
        ensures b in m' && m'[b] == m[b]
      {
        assert Get(q', b) == Get(q, b);
      }
    }
  }

  /** Local queues are left alone by both limits. */
  lemma LocalQueuesStay(s: Promotion, kept: set<Tx>, level: nat, locals: set<Address>, slots: nat, globalSlots: nat,
                        globalQueue: nat, p': Lists, q': Lists, all': set<Tx>, b: Address)
    requires Core(s.p', s.q', s.all', {}) && Core(p', q', all', {})
    requires Limited(s, kept, level, locals, slots, globalSlots, globalQueue, p', q', all')
    ensures PartOf(Get(q', b), Get(s.q', b)) && (b in locals ==> Get(q', b) == Get(s.q', b))
  {
    hide Core, QueueFits, Truncated, SizesOf, Limited;
    assert CutAtTop(Get(s.q', b), Get(q', b))
      by { QueueCutHere(s, kept, level, locals, slots, globalSlots, globalQueue, p', q', all', b); }
    ListKeyed(s.p', s.q', s.all', {}, b);
    if b in locals {
      forall n | n in Get(s.q', b)
        ensures n in Get(q', b)
      {
        KnownByPlace(s, kept, level, locals, slots, globalSlots, globalQueue, p', q', all', Get(s.q', b)[n]);
      }
      assert Get(q', b).Keys == Get(s.q', b).Keys;
    }
  }

  lemma QueueCutHere(s: Promotion, kept: set<Tx>, level: nat, locals: set<Address>, slots: nat, globalSlots: nat,
                     globalQueue: nat, p': Lists, q': Lists, all': set<Tx>, b: Address)
    requires Limited(s, kept, level, locals, slots, globalSlots, globalQueue, p', q', all')
    ensures CutAtTop(Get(s.q', b), Get(q', b))
  {
    assert CutAtTopAt(s.q', q', {}, b);
  }

  /** A queued transaction is dropped only within the surplus, and exactly then from the only remote queue. */
  lemma GoneBySurplus(s: Promotion, kept: set<Tx>, level: nat, locals: set<Address>, slots: nat, globalSlots: nat,
                      globalQueue: nat, p': Lists, q': Lists, all': set<Tx>, tx: Tx)
    requires Core(s.p', s.q', s.all', {}) && Core(p', q', all', {}) && NonEmpty(s.q') && NonEmpty(q')
    requires Limited(s, kept, level, locals, slots, globalSlots, globalQueue, p', q', all') && Listed(s.q', tx)
    ensures tx !in all' ==>
              InSurplus(s.q', tx, locals, globalQueue) && forall n :: n in Get(q', tx.from) ==> n < tx.nonce
    ensures OnlyRemote(s.q', tx.from, locals) ==> (tx !in all' <==> InSurplus(s.q', tx, locals, globalQueue))
  {
    hide Core, NonEmpty, Sum, SizesOf, Limited, QueueFits, FromNonce, OnlyRemote;
    var a := tx.from;
    var items, rest := Get(s.q', a), Get(q', a);
    KnownByPlace(s, kept, level, locals, slots, globalSlots, globalQueue, p', q', all', tx);
    GoneBySize(items, rest, tx.nonce);
    forall b
      ensures PartOf(Get(q', b), Get(s.q', b)) && (b in locals ==> Get(q', b) == Get(s.q', b))
    {
      LocalQueuesStay(s, kept, level, locals, slots, globalSlots, globalQueue, p', q', all', b);
    }
    if a !in locals {
      assert QueueFits(s.q', kept, q', all', locals, globalQueue)
        by { FitsQueue(s, kept, level, locals, slots, globalSlots, globalQueue, p', q', all'); }
      SurplusBySize(s.q', q', kept, all', a, locals, globalQueue);
    }
  }

  lemma FitsQueue(s: Promotion, kept: set<Tx>, level: nat, locals: set<Address>, slots: nat, globalSlots: nat,
                  globalQueue: nat, p': Lists, q': Lists, all': set<Tx>)
    requires Limited(s, kept, level, locals, slots, globalSlots, globalQueue, p', q', all')
    ensures QueueFits(s.q', kept, q', all', locals, globalQueue)
    ensures Truncated(SizesOf(s.p'), locals, slots, globalSlots, level, SizesOf(p'))
  {
  }

  /** What becomes of an accepted transaction; it stays if its sender is local. */
  lemma TakenBackExactly(s: Promotion, kept: set<Tx>, level: nat, locals: set<Address>, limit: nat, slots: nat,
                         globalSlots: nat, globalQueue: nat, p': Lists, q': Lists, all': set<Tx>, w: World, maxGas: nat,
                         tx: Tx)
    requires Core(s.p', s.q', s.all', {}) && Core(p', q', all', {}) && NonEmpty(s.q') && NonEmpty(q')
    requires GapFree(s.p', w) && GapFree(p', w) && slots >= 1
    requires Promoting(s, w, maxGas, locals, limit, {tx.from})
    requires Limited(s, kept, level, locals, slots, globalSlots, globalQueue, p', q', all')
    requires tx in s.all && !Hopeless(tx, w, maxGas) && LocalsSafe(s.all, all', w, maxGas, locals)
    ensures Fate(s, tx, locals, limit, globalSlots, globalQueue, level, w, q', all')
    ensures tx.from in locals ==> tx in all'
  {
    hide Core, Hopeless, Promoting, Limited, QueueFull, Listed, GapFree, NonEmpty, OverLevel, InSurplus, OnlyRemote;
    GoneByQueueLimit(s, w, maxGas, locals, limit, tx);
    AllIsListed(s.p', s.q', s.all', tx);
    KnownByPlace(s, kept, level, locals, slots, globalSlots, globalQueue, p', q', all', tx);
    if Listed(s.p', tx) {
      FitsQueue(s, kept, level, locals, slots, globalSlots, globalQueue, p', q', all');
      GoneByLevel(s.p', p', w, tx, locals, slots, globalSlots, level);
    }
    if Listed(s.q', tx) {
      GoneBySurplus(s, kept, level, locals, slots, globalSlots, globalQueue, p', q', all', tx);
    }
  }

  /** What the executable lists hold is not hopeless. */
  lemma ExecutableNotHopeless(p: Lists, q: Lists, all: set<Tx>, w: World, maxGas: nat, a: Address)
    requires Core(p, q, all, {}) && NoneHopeless(all, w, maxGas)
    ensures forall i :: 0 <= i < |Sorted(Get(p, a))| ==> !Hopeless(Sorted(Get(p, a))[i], w, maxGas)
  {
    hide Core, Hopeless, Sorted;
    ListKeyed(p, q, all, {}, a);
    SortedIsContents(Get(p, a));
    forall i | 0 <= i < |Sorted(Get(p, a))|
      ensures !Hopeless(Sorted(Get(p, a))[i], w, maxGas)
    {
      AllIsListed(p, q, all, Sorted(Get(p, a))[i]);
    }
  }

  /******* The first transaction of a pool *******/

  /** Filed in empty lists it is accepted and alone in the queue. */
  lemma FiledInEmpty(room: Room, tx: Tx, priceBump: nat, accepted: bool, replaced: bool, p': Lists, q': Lists)
    requires Core(room.p, room.q, {}, {}) && FiledIn(room, tx, priceBump, accepted, replaced, p', q')
    ensures accepted && !replaced
    ensures forall a :: Get(q', a) == if a == tx.from then map[tx.nonce := tx] else map[]
  {
    hide Core;
    EmptyLists(room.p, room.q, tx.from);
    forall a
      ensures Get(q', a) == if a == tx.from then map[tx.nonce := tx] else map[]
    {
      EmptyLists(room.p, room.q, a);
    }
  }

  lemma EmptyLists(p: Lists, q: Lists, a: Address)
    requires Core(p, q, {}, {})
    ensures Get(p, a) == map[] && Get(q, a) == map[]
  {
    assert FiledAt(p, a) && FiledAt(q, a);
    if n :| n in Get(p, a) {
      AllIsListed(p, q, {}, Get(p, a)[n]);
    }
    if n :| n in Get(q, a) {
      AllIsListed(p, q, {}, Get(q, a)[n]);
    }
  }

  /** No limit drops it. */
  lemma LoneStays(s: Promotion, kept: set<Tx>, level: nat, locals: set<Address>, limit: nat, slots: nat,
                  globalSlots: nat, globalQueue: nat, p': Lists, q': Lists, all': set<Tx>, w: World, maxGas: nat,
                  tx: Tx)
    requires forall a :: Get(s.q, a) == if a == tx.from then map[tx.nonce := tx] else map[]
    requires Promoting(s, w, maxGas, locals, limit, {tx.from}) && NonEmpty(s.q')
    requires Limited(s, kept, level, locals, slots, globalSlots, globalQueue, p', q', all')
    requires Fate(s, tx, locals, limit, globalSlots, globalQueue, level, w, q', all')
    requires slots >= 1 && limit >= 1 && globalQueue >= 1 && tx.nonce == NonceOf(w, tx.from)
    ensures tx in all'
  {
    hide Sum, Hopeless, SettledAt, Shortened, QueueCut, QueueFits;
    var a, items := tx.from, Get(s.q', tx.from);
    assert PromotingAt(s, w, maxGas, locals, limit, {a}, a);
    assert forall n :: n in items ==> n == tx.nonce;
    assert items != map[] ==> tx.nonce in items;
    assert tx in s.all';
    if Listed(s.q', tx) {
      forall b | b in s.q'
        ensures b == a
      {
        assert PromotingAt(s, w, maxGas, locals, limit, {a}, b);
      }
      LoneSum(s.q', a, tx.nonce);
    }
  }

  lemma LoneSum(q: Lists, a: Address, n: nat)
    requires a in q && (forall b :: b in q ==> b == a) && forall m :: m in q[a] ==> m == n
    ensures Sum(SizesOf(q)) <= 1 && (n in q[a] ==> |FromNonce(q[a], n)| == 1)
  {
    SumRemove(SizesOf(q), a);
    assert SizesOf(q) - {a} == map[];
    if n in q[a] {
      assert q[a].Keys == {n} && FromNonce(q[a], n).Keys == {n};
      assert |q[a]| == |q[a].Keys| && |FromNonce(q[a], n)| == |FromNonce(q[a], n).Keys|;
    } else {
      assert q[a].Keys == {};
    }
  }

  /******* The last nonce *******/

  /** The source keeps tracked nonces in 64 bits; they fit if and only if no executable transaction of the account
      has the last nonce. */
  lemma TrackedNonceFitsExactlyWhen(p: Lists, q: Lists, all: set<Tx>, pn: Nonces, w: World, a: Address)
    requires Core(p, q, all, {}) && GapFree(p, w) && Tracks(p, pn, w)
    ensures PendingNonce(pn, w, a) <= MAX_UINT64 <==> MAX_UINT64 !in Get(p, a)
  {
    hide Core;
    ListKeyed(p, q, all, {}, a);
    assert GapFreeAt(p, w, a) && TracksAt(p, pn, w, a);
    var items := Get(p, a);
    if items != map[] {
      assert items.Keys != {} && |items| == |items.Keys|;
      var last := NonceOf(w, a) + |items| - 1;
      assert last in items && items[last].nonce == last;
    }
  }
}
