/** Where the pool's transactions are (core/tx_pool.go). Each account has an executable and a gapped list,
    both from nonce to transaction, and a set holds everything known. While an operation moves
    transactions between lists, those in neither list are in limbo. */
module PoolCore {
  import opened Types
  import opened Gas
  import opened SortedMap
  import opened TxList
  import opened PoolLists
  import opened PricedList
  import Heap

  type Lists = map<Address, Items>

  function Get(m: Lists, a: Address): Items {
    if a in m then m[a] else map[]
  }

  predicate Listed(m: Lists, t: Tx) {
    t.nonce in Get(m, t.from) && Get(m, t.from)[t.nonce] == t
  }

  ghost predicate KeyedFor(a: Address, items: Items) {
    forall n :: n in items ==> items[n].from == a && items[n].nonce == n
  }

  /** Every transaction is filed under its sender and nonce. */
  ghost predicate Filed(m: Lists) {
    forall a {:trigger FiledAt(m, a)} :: FiledAt(m, a)
  }

  ghost predicate FiledAt(m: Lists, a: Address) {
    KeyedFor(a, Get(m, a))
  }

  /** No stored list is empty. */
  ghost predicate NonEmpty(m: Lists) {
    forall a :: a in m ==> m[a] != map[]
  }

  /** No nonce of the account is in both lists. */
  ghost predicate ApartAt(p: Lists, q: Lists, a: Address) {
    forall n :: n in Get(p, a) ==> n !in Get(q, a)
  }

  /** Known exactly if listed somewhere or in limbo. */
  ghost predicate PlacedAt(p: Lists, q: Lists, all: set<Tx>, limbo: set<Tx>, t: Tx) {
    && (t in all <==> Listed(p, t) || Listed(q, t) || t in limbo)
    && (t in limbo ==> t.nonce !in Get(p, t.from) && t.nonce !in Get(q, t.from))
  }

  ghost predicate OneSlotEach(limbo: set<Tx>) {
    forall t, u :: t in limbo && u in limbo && t.from == u.from && t.nonce == u.nonce ==> t == u
  }

  /** The heart of the pool invariant. */
  ghost predicate Core(p: Lists, q: Lists, all: set<Tx>, limbo: set<Tx>) {
    && Filed(p) && Filed(q) && OneSlotEach(limbo)
    && (forall a {:trigger ApartAt(p, q, a)} :: ApartAt(p, q, a))
    && (forall t {:trigger PlacedAt(p, q, all, limbo, t)} :: PlacedAt(p, q, all, limbo, t))
  }

  lemma CoreFlip(p: Lists, q: Lists, all: set<Tx>, limbo: set<Tx>)
    requires Core(p, q, all, limbo)
    ensures Core(q, p, all, limbo)
  {
    forall a
      ensures ApartAt(q, p, a)
    {
      assert ApartAt(p, q, a);
    }
    forall t
      ensures PlacedAt(q, p, all, limbo, t)
    {
      assert PlacedAt(p, q, all, limbo, t);
    }
  }

  /** Only the contents of the lists matter, not whether an empty one is stored. */
  lemma CoreByContents(p: Lists, p': Lists, q: Lists, all: set<Tx>, limbo: set<Tx>)
    requires Core(p, q, all, limbo) && forall a :: Get(p', a) == Get(p, a)
    ensures Core(p', q, all, limbo)
  {
    forall a
      ensures FiledAt(p', a) && ApartAt(p', q, a)
    {
      assert FiledAt(p, a) && ApartAt(p, q, a);
    }
    forall t
      ensures PlacedAt(p', q, all, limbo, t)
    {
      assert PlacedAt(p, q, all, limbo, t);
    }
  }

  /** Taking transactions off a list puts them in limbo. */
  lemma Detach(p: Lists, q: Lists, all: set<Tx>, limbo: set<Tx>, a: Address, rest: Items)
    requires Core(p, q, all, limbo) && PartOf(rest, Get(p, a))
    ensures Core(p[a := rest], q, all, limbo + Lost(Get(p, a), rest))
    ensures limbo !! Lost(Get(p, a), rest) && Lost(Get(p, a), rest) <= all
  {
    var p', lost := p[a := rest], Lost(Get(p, a), rest);
    var limbo' := limbo + lost;
    assert FiledAt(p, a) && ApartAt(p, q, a);
    forall b
      ensures FiledAt(p', b) && ApartAt(p', q, b)
    {
      assert FiledAt(p, b) && ApartAt(p, q, b);
    }
    forall t
      ensures t in lost <==> t.from == a && Listed(p, t) && t.nonce !in rest
    {
      LostAt(Get(p, a), rest, a, t);
    }
    forall t
      ensures PlacedAt(p', q, all, limbo', t)
      ensures !(t in limbo && t in lost) && (t in lost ==> t in all)
    {
      assert PlacedAt(p, q, all, limbo, t);
      assert FiledAt(p, t.from);
    }
    forall t, u | t in limbo' && u in limbo' && t.from == u.from && t.nonce == u.nonce
      ensures t == u
    {
      assert PlacedAt(p, q, all, limbo, t) && PlacedAt(p, q, all, limbo, u);
    }
  }

  lemma LostAt(items: Items, rest: Items, a: Address, t: Tx)
    requires KeyedFor(a, items)
    ensures t in Lost(items, rest) <==> t.from == a && t.nonce in items && items[t.nonce] == t && t.nonce !in rest
  {
  }

  /** Forgetting a transaction in limbo. */
  lemma Forget(p: Lists, q: Lists, all: set<Tx>, limbo: set<Tx>, t: Tx)
    requires Core(p, q, all, limbo) && t in limbo
    ensures Core(p, q, all - {t}, limbo - {t}) && t in all
  {
    var all', limbo' := all - {t}, limbo - {t};
    forall u
      ensures PlacedAt(p, q, all', limbo', u)
    {
      assert PlacedAt(p, q, all, limbo, u);
    }
    assert PlacedAt(p, q, all, limbo, t);
  }

  function Put(m: Lists, t: Tx): Lists {
    m[t.from := Get(m, t.from)[t.nonce := t]]
  }

  /** Filing a transaction from limbo in a list. */
  lemma File(p: Lists, q: Lists, all: set<Tx>, limbo: set<Tx>, t: Tx)
    requires Core(p, q, all, limbo) && t in limbo
    ensures Core(Put(p, t), q, all, limbo - {t})
    ensures t.nonce !in Get(p, t.from) && t.nonce !in Get(q, t.from) && t in all
  {
    var p', limbo' := Put(p, t), limbo - {t};
    assert PlacedAt(p, q, all, limbo, t);
    forall b
      ensures FiledAt(p', b) && ApartAt(p', q, b)
    {
      assert FiledAt(p, b) && ApartAt(p, q, b);
    }
    forall u
      ensures PlacedAt(p', q, all, limbo', u)
    {
      assert PlacedAt(p, q, all, limbo, u);
    }
  }

  /** A new transaction enters through limbo. */
  lemma Enter(p: Lists, q: Lists, all: set<Tx>, limbo: set<Tx>, t: Tx)
    requires Core(p, q, all, limbo) && t !in all
    requires t.nonce !in Get(p, t.from) && t.nonce !in Get(q, t.from)
    requires forall u :: u in limbo ==> u.from != t.from || u.nonce != t.nonce
    ensures Core(p, q, all + {t}, limbo + {t})
  {
    var all', limbo' := all + {t}, limbo + {t};
    forall u
      ensures PlacedAt(p, q, all', limbo', u)
    {
      assert PlacedAt(p, q, all, limbo, u);
    }
  }

  /** With nothing in limbo, the known transactions are those of the two lists, never of both. */
  lemma AllIsListed(p: Lists, q: Lists, all: set<Tx>, t: Tx)
    requires Core(p, q, all, {})
    ensures t in all <==> Listed(p, t) || Listed(q, t)
    ensures !(Listed(p, t) && Listed(q, t))
    ensures t in all ==> (t.nonce in Get(p, t.from) <==> Listed(p, t))
  {
    assert PlacedAt(p, q, all, {}, t) && ApartAt(p, q, t.from);
  }

  /** What a new transaction would take the place of. */
  function Occupant(m: Lists, t: Tx): set<Tx> {
    if t.nonce in Get(m, t.from) then {Get(m, t.from)[t.nonce]} else {}
  }

  ghost predicate SlotFree(limbo: set<Tx>, t: Tx) {
    forall u :: u in limbo ==> u.from != t.from || u.nonce != t.nonce
  }

  /** Filing an unknown transaction, in the place of whatever had its nonce. */
  lemma Supersede(p: Lists, q: Lists, all: set<Tx>, limbo: set<Tx>, t: Tx)
    requires Core(p, q, all, limbo) && t !in all && t.nonce !in Get(q, t.from) && SlotFree(limbo, t)
    ensures Core(Put(p, t), q, all - Occupant(p, t) + {t}, limbo)
    ensures Occupant(p, t) <= all
  {
    hide Core;
    if t.nonce in Get(p, t.from) {
      var items := Get(p, t.from);
      var was, rest := items[t.nonce], items - {t.nonce};
      assert Lost(items, rest) == {was};
      Detach(p, q, all, limbo, t.from, rest);
      var p1 := p[t.from := rest];
      Forget(p1, q, all, limbo + {was}, was);
      assert limbo + {was} - {was} == limbo;
      Enter(p1, q, all - {was}, limbo, t);
      File(p1, q, all - {was} + {t}, limbo + {t}, t);
      assert rest[t.nonce := t] == items[t.nonce := t];
      assert Put(p1, t) == Put(p, t);
    } else {
      Enter(p, q, all, limbo, t);
      File(p, q, all + {t}, limbo + {t}, t);
      assert all - {} + {t} == all + {t};
    }
    assert limbo + {t} - {t} == limbo;
  }

  /** Setting aside a transaction in limbo. */
  lemma Aside(p: Lists, q: Lists, all: set<Tx>, limbo: set<Tx>, t: Tx)
    requires Core(p, q, all, limbo) && t in limbo
    ensures Core(p, q, all - {t}, limbo - {t}) && t in all && SlotFree(limbo - {t}, t)
    ensures t.nonce !in Get(p, t.from) && t.nonce !in Get(q, t.from)
  {
    Forget(p, q, all, limbo, t);
    assert PlacedAt(p, q, all, limbo, t);
  }

  /** Store a list, or remove the entry if it became empty. */
  function Store(m: Lists, a: Address, items: Items): Lists {
    if items == map[] then m - {a} else m[a := items]
  }

  lemma StoreContents(m: Lists, a: Address, items: Items)
    ensures forall b :: Get(Store(m, a, items), b) == if b == a then items else Get(m, b)
    ensures forall b :: Get(m[a := items], b) == if b == a then items else Get(m, b)
    ensures NonEmpty(m) ==> NonEmpty(Store(m, a, items))
  {
    var m' := m[a := items];
    forall b
      ensures Get(m', b) == if b == a then items else Get(m, b)
    {
    }
  }

  lemma CoreStore(p: Lists, q: Lists, all: set<Tx>, limbo: set<Tx>, a: Address, items: Items)
    requires Core(p[a := items], q, all, limbo)
    ensures Core(Store(p, a, items), q, all, limbo)
  {
    StoreContents(p, a, items);
    CoreByContents(p[a := items], Store(p, a, items), q, all, limbo);
  }

  lemma PutNonEmpty(m: Lists, t: Tx)
    requires NonEmpty(m)
    ensures NonEmpty(Put(m, t))
  {
    var items := Get(m, t.from)[t.nonce := t];
    assert t.nonce in items;
  }

  lemma ListKeyed(p: Lists, q: Lists, all: set<Tx>, limbo: set<Tx>, a: Address)
    requires Core(p, q, all, limbo)
    ensures KeyedFor(a, Get(p, a)) && Keyed(Get(p, a)) && KeyedFor(a, Get(q, a)) && Keyed(Get(q, a))
  {
    assert FiledAt(p, a) && FiledAt(q, a);
  }

  /** Taking one listed transaction out of a list and of the known ones. */
  lemma RemoveListed(p: Lists, q: Lists, all: set<Tx>, t: Tx)
    requires Core(p, q, all, {}) && Listed(p, t)
    ensures Core(Store(p, t.from, Get(p, t.from) - {t.nonce}), q, all - {t}, {})
  {
    hide Core;
    var items := Get(p, t.from);
    var rest := items - {t.nonce};
    assert Lost(items, rest) == {t};
    Detach(p, q, all, {}, t.from, rest);
    CoreStore(p, q, all, {} + {t}, t.from, rest);
    Forget(Store(p, t.from, rest), q, all, {} + {t}, t);
    assert {} + {t} - {t} == {};
  }

  /** What a strict removal takes off: the transaction and what it invalidates. */
  lemma LostSplit(items: Items, t: Tx, rest: Items, invalids: seq<Tx>)
    requires Keyed(items) && t.nonce in items && items[t.nonce] == t
    requires rest == BelowNonce(items, t.nonce) && TakenOff(items - {t.nonce}, rest, invalids)
    ensures t in Lost(items, rest) && {} + Lost(items, rest) - {t} == Elems(invalids)
    ensures PartOf(rest, items) && NoRepeats(invalids)
  {
    forall u
      ensures u in Lost(items, rest) && u != t <==> u in invalids
    {
      assert u in invalids <==> u in Lost(items - {t.nonce}, rest);
    }
  }

  /** What was taken off a list is in limbo, and forgetting or filing it leaves nothing there. */
  lemma DetachOff(p: Lists, q: Lists, all: set<Tx>, a: Address, rest: Items, off: seq<Tx>)
    requires Core(p, q, all, {}) && TakenOff(Get(p, a), rest, off)
    ensures Core(p[a := rest], q, all, Elems(off)) && Elems(off) - Elems(off) == {} && NoRepeats(off)
    ensures Keyed(Get(p, a)) && Keyed(rest)
  {
    hide Core;
    ListKeyed(p, q, all, {}, a);
    Detach(p, q, all, {}, a, rest);
    assert {} + Lost(Get(p, a), rest) == Elems(off);
  }

  /** The tracked nonce falls back to a removed transaction below it. */
  function LowerTo(pn: map<Address, nat>, w: World, t: Tx): map<Address, nat> {
    if PendingNonce(pn, w, t.from) > t.nonce then pn[t.from := t.nonce] else pn
  }

  function Elems(txs: seq<Tx>): set<Tx> {
    set t | t in txs
  }

  lemma AllElems(txs: seq<Tx>)
    ensures Elems(txs) - Elems(txs) == {} && forall t :: t in txs ==> t in Elems(txs)
  {
  }

  lemma ElemsSnoc(txs: seq<Tx>, i: nat)
    requires i < |txs|
    ensures Elems(txs[..i + 1]) == Elems(txs[..i]) + {txs[i]}
    ensures NoRepeats(txs) ==> txs[i] !in Elems(txs[..i])
  {
    assert txs[..i + 1] == txs[..i] + [txs[i]];
  }

  /******* The price heap *******/

  lemma AfterRemoved(known: set<Tx>, known': set<Tx>, items: seq<Tx>, stales: int, items': seq<Tx>, stales': int)
    requires PricedOk(known, items, stales) && known' <= known && |known'| >= |known| - 1
    requires Heap.IsHeap(PriceLess, items')
    requires (items' == items && stales' == stales + 1) || (multiset(items') == multiset(known') && stales' == 0)
    ensures PricedOk(known', items', stales')
  {
    if multiset(items') == multiset(known') {
      assert |multiset(items')| == |items'|;
      forall t | t in known'
        ensures t in items'
      {
        assert t in multiset(known');
        assert t in multiset(items');
      }
    }
  }

  lemma OneLess(all: set<Tx>, t: Tx)
    ensures all - {t} <= all && |all - {t}| >= |all| - 1
  {
    if t in all {
      assert all == (all - {t}) + {t};
    } else {
      assert all == all - {t};
    }
  }

  lemma AfterPut(known: set<Tx>, t: Tx, items: seq<Tx>, stales: int, items': seq<Tx>)
    requires PricedOk(known, items, stales) && t !in known
    requires Heap.IsHeap(PriceLess, items') && multiset(items') == multiset(items) + multiset{t}
    ensures PricedOk(known + {t}, items', stales)
  {
    assert |multiset(items')| == |items'| && |multiset(items)| == |items|;
    forall u | u in known + {t}
      ensures u in items'
    {
      assert u in known ==> u in multiset(items);
      assert u in multiset(items');
    }
  }

  /** What Cap and Discard leave on the heap backs the pool without what they hand out. */
  lemma AfterTaken(all: set<Tx>, drop: seq<Tx>, items: seq<Tx>, stales: int, items': seq<Tx>, stales': int)
    requires PricedOk(all, items, stales)
    requires Heap.IsHeap(PriceLess, items') && Backed(Without(all, drop), items')
    requires stales' - |items'| == stales - |items| + |drop|
    ensures PricedOk(all - Elems(drop), items', stales')
  {
    assert Without(all, drop) == all - Elems(drop);
    ElemsSize(drop);
    assert all == (all - Elems(drop)) + (all * Elems(drop));
    assert |all * Elems(drop)| <= |Elems(drop)| by {
      assert Elems(drop) == (all * Elems(drop)) + (Elems(drop) - all);
    }
  }

  lemma AfterUnderpriced(all: set<Tx>, items: seq<Tx>, stales: int, items': seq<Tx>, stales': int)
    requires PricedOk(all, items, stales)
    requires Heap.IsHeap(PriceLess, items') && Backed(all, items') && stales' - |items'| == stales - |items|
    ensures PricedOk(all, items', stales')
  {
  }

  lemma {:induction false} ElemsSize(txs: seq<Tx>)
    ensures |Elems(txs)| <= |txs|
  {
    if txs != [] {
      ElemsSnoc(txs, |txs| - 1);
      assert txs[..|txs|] == txs;
      ElemsSize(txs[..|txs| - 1]);
    } else {
      assert Elems(txs) == {};
    }
  }

  /** The counter is the number of surplus entries, and no transaction has two. */
  ghost predicate CountedOnce(all: set<Tx>, items: seq<Tx>, stales: int) {
    stales == |items| - |all| && forall t :: multiset(items)[t] <= 1
  }

  /** Adding a transaction keeps the counter exact, and keeps entries unique exactly if it has no stale entry. */
  lemma CountedAfterPut(known: set<Tx>, t: Tx, items: seq<Tx>, stales: int, items': seq<Tx>)
    requires CountedOnce(known, items, stales) && t !in known && multiset(items') == multiset(items) + multiset{t}
    ensures stales == |items'| - |known + {t}|
    ensures CountedOnce(known + {t}, items', stales) <==> t !in items
  {
    assert |multiset(items')| == |items'| && |multiset(items)| == |items|;
    assert t in items <==> t in multiset(items);
    if CountedOnce(known + {t}, items', stales) {
      assert multiset(items')[t] <= 1;
    }
  }

  lemma CountedAfterRemoved(known: set<Tx>, t: Tx, items: seq<Tx>, stales: int, items': seq<Tx>, stales': int)
    requires CountedOnce(known, items, stales) && t in known
    requires (items' == items && stales' == stales + 1) ||
             (multiset(items') == multiset(known - {t}) && stales' == 0)
    ensures CountedOnce(known - {t}, items', stales')
  {
    assert known == (known - {t}) + {t};
    if multiset(items') == multiset(known - {t}) {
      assert |multiset(items')| == |items'| && |multiset(known - {t})| == |known - {t}|;
    }
  }

  /** Handing out transactions keeps the counter exact exactly if none is handed out twice. */
  lemma CountedAfterTaken(all: set<Tx>, drop: seq<Tx>, items: seq<Tx>, stales: int, items': seq<Tx>, stales': int)
    requires stales == |items| - |all| && (forall t :: t in drop ==> t in all)
    requires stales' - |items'| == stales - |items| + |drop|
    ensures stales' == |items'| - |all - Elems(drop)| <==> |Elems(drop)| == |drop|
  {
    assert all == (all - Elems(drop)) + Elems(drop);
  }

  /** That is so as long as no transaction has two entries. */
  lemma TakenOnce(drop: seq<Tx>, items: seq<Tx>, items': seq<Tx>)
    requires multiset(items') + multiset(drop) <= multiset(items) && forall t :: multiset(items)[t] <= 1
    ensures |Elems(drop)| == |drop| && forall t :: multiset(items')[t] <= 1
  {
    forall t
      ensures multiset(drop)[t] <= 1 && multiset(items')[t] <= 1
    {
      assert (multiset(items') + multiset(drop))[t] <= multiset(items)[t];
    }
    ElemsOnce(drop);
  }

  lemma {:induction false} ElemsOnce(txs: seq<Tx>)
    requires forall t :: multiset(txs)[t] <= 1
    ensures |Elems(txs)| == |txs|
  {
    if txs != [] {
      var front, last := txs[..|txs| - 1], txs[|txs| - 1];
      assert txs == front + [last];
      assert multiset(txs)[last] == multiset(front)[last] + 1;
      assert last !in multiset(front);
      forall t
        ensures multiset(front)[t] <= 1
      {
        assert multiset(front)[t] <= multiset(txs)[t];
      }
      ElemsOnce(front);
      assert Elems(txs) == Elems(front) + {last};
    } else {
      assert Elems(txs) == {};
    }
  }

  /******* Nonces *******/

  ghost predicate GapFreeAt(p: Lists, w: World, a: Address) {
    GapFreeFrom(Get(p, a), NonceOf(w, a))
  }

  /** Executable lists run without gaps from the state nonce. */
  ghost predicate GapFree(p: Lists, w: World) {
    forall a {:trigger GapFreeAt(p, w, a)} :: GapFreeAt(p, w, a)
  }

  /** The nonce after the executable transactions, as pendingState has it. */
  function PendingNonce(pn: map<Address, nat>, w: World, a: Address): nat {
    if a in pn then pn[a] else NonceOf(w, a)
  }

  /** The tracked nonces after promoting `k` transactions of an account. */
  ghost function Raised(pn: map<Address, nat>, a: Address, k: nat, nonce: nat): map<Address, nat> {
    if k == 0 then pn else pn[a := nonce]
  }

  ghost predicate TracksAt(p: Lists, pn: map<Address, nat>, w: World, a: Address) {
    && (Get(p, a) != map[] ==> PendingNonce(pn, w, a) == NonceOf(w, a) + |Get(p, a)|)
    && (Get(p, a) == map[] ==> PendingNonce(pn, w, a) <= NonceOf(w, a))
  }

  /** The tracked nonce follows the executable list; for an account without one it may have been left
      behind the state nonce. */
  ghost predicate Tracks(p: Lists, pn: map<Address, nat>, w: World) {
    forall a {:trigger TracksAt(p, pn, w, a)} :: TracksAt(p, pn, w, a)
  }

  ghost predicate UpToDateAt(p: Lists, pn: map<Address, nat>, w: World, a: Address) {
    PendingNonce(pn, w, a) == NonceOf(w, a) + |Get(p, a)|
  }

  /** A list stored over another. */
  lemma StoreOver(m: Lists, a: Address, between: Items, items: Items)
    ensures Store(m[a := between], a, items) == Store(m, a, items)
    ensures m[a := between][a := items] == m[a := items]
  {
  }

  /** Outside `a` the lists are the same. */
  ghost predicate SameBut(m: Lists, m': Lists, a: Address) {
    forall b {:trigger Get(m', b)} :: b != a ==> Get(m', b) == Get(m, b)
  }

  /** The tracked nonce is exactly the one after the executable list. */
  ghost predicate UpToDate(p: Lists, pn: map<Address, nat>, w: World) {
    forall a {:trigger UpToDateAt(p, pn, w, a)} :: UpToDateAt(p, pn, w, a)
  }

  /** The same accounts are up to date before and after. */
  ghost predicate SameTracking(p: Lists, pn: map<Address, nat>, p': Lists, pn': map<Address, nat>, w: World) {
    forall a {:trigger UpToDateAt(p', pn', w, a)} :: UpToDateAt(p', pn', w, a) <==> UpToDateAt(p, pn, w, a)
  }

  /** A gap-free list takes the next nonce. */
  lemma GapFreeSnoc(items: Items, start: nat, t: Tx)
    requires GapFreeFrom(items, start) && t.nonce == start + |items|
    ensures var longer := items[t.nonce := t];
            GapFreeFrom(longer, start) && |longer| == |items| + 1 && PartOf(items, longer)
  {
    var longer := items[t.nonce := t];
    assert t.nonce !in items;
    assert longer.Keys == items.Keys + {t.nonce};
    assert |longer| == |longer.Keys| && |items| == |items.Keys|;
  }

  /** Transactions of the account with the nonces from `next` on. */
  ghost predicate Continues(txs: seq<Tx>, a: Address, next: nat) {
    forall i :: 0 <= i < |txs| ==> txs[i].from == a && txs[i].nonce == next + i
  }

  ghost predicate AtLeast(items: Items, nonce: nat) {
    forall n :: n in items ==> n >= nonce
  }

  /** The account's gap-free list has been extended by `k` transactions. */
  ghost predicate Grown(p: Lists, p': Lists, a: Address, start: nat, k: nat) {
    && SameBut(p, p', a) && PartOf(Get(p, a), Get(p', a))
    && GapFreeFrom(Get(p', a), start) && |Get(p', a)| == |Get(p, a)| + k
  }

  lemma GrowStart(p: Lists, a: Address, start: nat)
    requires GapFreeFrom(Get(p, a), start)
    ensures Grown(p, p, a, start, 0)
  {
  }

  lemma GrowStep(p: Lists, p': Lists, a: Address, start: nat, k: nat, t: Tx)
    requires Grown(p, p', a, start, k) && t.from == a && t.nonce == start + |Get(p, a)| + k
    ensures Grown(p, Put(p', t), a, start, k + 1) && t.nonce !in Get(p', a)
  {
    GapFreeSnoc(Get(p', a), start, t);
    var longer := Put(p', t);
    forall b | b != a
      ensures Get(longer, b) == Get(p, b)
    {
      assert Get(longer, b) == Get(p', b);
    }
  }
}
