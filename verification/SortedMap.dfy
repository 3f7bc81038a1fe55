/** The nonce-indexed transaction map of an account (txSortedMap in core/tx_list.go): a hash map, a
    heap of its nonces and a cached sorted slice, refining a plain map from nonce to transaction. */
module SortedMap {
  import opened Types
  import Heap

  type Items = map<nat, Tx>

  /** Every transaction is stored under its own nonce. */
  ghost predicate Keyed(items: Items) {
    forall n :: n in items ==> items[n].nonce == n
  }

  ghost function Least(keys: set<nat>): (n: nat)
    requires keys != {}
    ensures n in keys && forall m :: m in keys ==> n <= m
  {
    var k :| k in keys;
    var others := keys - {k};
    assert keys == others + {k};
    if others == {} then k
    else
      var rest := Least(others);
      if k < rest then k else rest
  }

  /** The contents in nonce order. */
  ghost function Sorted(items: Items): seq<Tx>
    decreases items.Keys
  {
    if items == map[] then []
    else
      assert items.Keys != {};
      var n := Least(items.Keys);
      assert (items - {n}).Keys == items.Keys - {n};
      [items[n]] + Sorted(items - {n})
  }

  lemma RemoveKey(items: Items, n: nat)
    requires n in items
    ensures (items - {n}).Keys == items.Keys - {n} && |items - {n}| == |items| - 1
    ensures multiset((items - {n}).Keys) == multiset(items.Keys) - multiset{n}
  {
    var rest := items - {n};
    assert rest.Keys == items.Keys - {n};
    assert |rest| == |rest.Keys| && |items| == |items.Keys|;
  }

  lemma {:induction false} SortedLength(items: Items)
    ensures |Sorted(items)| == |items|
    decreases items.Keys
  {
    if items != map[] {
      assert items.Keys != {};
      var n := Least(items.Keys);
      RemoveKey(items, n);
      SortedLength(items - {n});
    }
  }

  lemma SortedFirst(items: Items, n: nat)
    requires n in items && forall m :: m in items ==> n <= m
    ensures Sorted(items) == [items[n]] + Sorted(items - {n})
  {
    assert items.Keys != {} && Least(items.Keys) == n;
  }

  lemma SortedEmpty()
    ensures Sorted(map[]) == []
  {
  }

  lemma {:induction false} SortedLast(items: Items, n: nat)
    requires n in items && forall m :: m in items ==> m <= n
    ensures Sorted(items) == Sorted(items - {n}) + [items[n]]
    decreases items.Keys
  {
    hide Sorted;
    assert items.Keys != {};
    var k := Least(items.Keys);
    RemoveKey(items, k);
    RemoveKey(items, n);
    SortedFirst(items, k);
    if k == n {
      SortedEmpty();
      assert items - {n} == map[];
    } else {
      SortedLast(items - {k}, n);
      SortedFirst(items - {n}, k);
      assert items - {k} - {n} == items - {n} - {k};
    }
  }

  /** The least nonce and the rest, seen from the sorted contents. */
  lemma SortedSplit(items: Items) returns (n: nat)
    requires items != map[]
    ensures n in items && (forall m :: m in items ==> n <= m) && (items - {n}).Keys == items.Keys - {n}
    ensures Sorted(items) == [items[n]] + Sorted(items - {n})
  {
    assert items.Keys != {};
    n := Least(items.Keys);
    RemoveKey(items, n);
  }

  lemma {:induction false} SortedEntry(items: Items, i: nat)
    requires Keyed(items) && i < |Sorted(items)|
    ensures Sorted(items)[i].nonce in items && items[Sorted(items)[i].nonce] == Sorted(items)[i]
    decreases items.Keys
  {
    hide Sorted;
    SortedEmpty();
    var n := SortedSplit(items);
    if i > 0 {
      SortedEntry(items - {n}, i - 1);
    }
  }

  lemma {:induction false} SortedHas(items: Items, m: nat)
    requires m in items
    ensures items[m] in Sorted(items)
    decreases items.Keys
  {
    hide Sorted;
    var n := SortedSplit(items);
    if m == n {
      assert Sorted(items)[0] == items[n];
    } else {
      SortedHas(items - {n}, m);
    }
  }

  lemma {:induction false} SortedIncreases(items: Items, i: nat, j: nat)
    requires Keyed(items) && i < j < |Sorted(items)|
    ensures Sorted(items)[i].nonce < Sorted(items)[j].nonce
    decreases items.Keys
  {
    hide Sorted;
    SortedEmpty();
    var n := SortedSplit(items);
    if i == 0 {
      SortedEntry(items - {n}, j - 1);
    } else {
      SortedIncreases(items - {n}, i - 1, j - 1);
    }
  }

  /** The sorted contents are exactly the map's values, in strictly increasing nonce order. */
  lemma SortedIsContents(items: Items)
    requires Keyed(items)
    ensures forall i :: 0 <= i < |Sorted(items)| ==>
              Sorted(items)[i].nonce in items && items[Sorted(items)[i].nonce] == Sorted(items)[i]
    ensures forall i, j :: 0 <= i < j < |Sorted(items)| ==> Sorted(items)[i].nonce < Sorted(items)[j].nonce
    ensures forall n :: n in items ==> items[n] in Sorted(items)
  {
    hide Sorted;
    var s := Sorted(items);
    forall i | 0 <= i < |s|
      ensures s[i].nonce in items && items[s[i].nonce] == s[i]
    {
      SortedEntry(items, i);
    }
    forall i, j | 0 <= i < j < |s|
      ensures s[i].nonce < s[j].nonce
    {
      SortedIncreases(items, i, j);
    }
    forall n | n in items
      ensures items[n] in s
    {
      SortedHas(items, n);
    }
  }

  function NonceLess(a: nat, b: nat): bool {
    a < b
  }

  lemma NonceOrder()
    ensures Heap.Order(NonceLess)
  {
  }

  /** The index is a heap of exactly the stored nonces, each once. */
  ghost predicate IndexOk(items: Items, index: seq<nat>) {
    multiset(index) == multiset(items.Keys) && Heap.IsHeap(NonceLess, index)
  }

  lemma IndexMembers(items: Items, index: seq<nat>)
    requires multiset(index) == multiset(items.Keys)
    ensures |index| == |items|
    ensures forall n :: n in items <==> n in index
    ensures forall i, j :: 0 <= i < j < |index| ==> index[i] != index[j]
  {
    assert |multiset(index)| == |index| && |items| == |items.Keys|;
    forall n
      ensures n in items <==> n in index
    {
      assert n in index <==> n in multiset(index);
      assert n in items.Keys <==> n in multiset(items.Keys);
    }
    forall i, j | 0 <= i < j < |index|
      ensures index[i] != index[j]
    {
      if index[i] == index[j] {
        TwiceCounted(index, i, j);
        assert false;
      }
    }
  }

  lemma TwiceCounted(index: seq<nat>, i: nat, j: nat)
    requires i < j < |index| && index[i] == index[j]
    ensures multiset(index)[index[i]] >= 2
  {
    assert index == index[..i] + [index[i]] + index[i + 1..j] + [index[j]] + index[j + 1..];
  }

  lemma FrontIsLeastNonce(items: Items, index: seq<nat>)
    requires IndexOk(items, index) && index != []
    ensures index[0] in items && forall m :: m in items ==> index[0] <= m
  {
    NonceOrder();
    IndexMembers(items, index);
    assert index[0] in index;
    forall m | m in items
      ensures index[0] <= m
    {
      var k :| 0 <= k < |index| && index[k] == m;
      Heap.FrontIsLeast(NonceLess, index, k);
    }
  }

  lemma EmptyIndex(items: Items, index: seq<nat>)
    requires multiset(index) == multiset(items.Keys)
    ensures index == [] <==> items == map[]
  {
    IndexMembers(items, index);
  }

  /** Selection sort of map contents, standing for sort.Sort(types.TxByNonce). */
  method SortByNonce(items: Items) returns (s: seq<Tx>)
    ensures s == Sorted(items)
  {
    hide Sorted;
    SortedEmpty();
    s := [];
    var rest := items;
    while rest != map[]
      invariant Sorted(items) == s + Sorted(rest)
      decreases rest.Keys
    {
      var n := FindLeast(rest);
      SortedFirst(rest, n);
      RemoveKey(rest, n);
      s := s + [rest[n]];
      rest := rest - {n};
    }
  }

  method FindLeast(items: Items) returns (n: nat)
    requires items != map[]
    ensures n in items && forall m :: m in items ==> n <= m
  {
    assert items.Keys != {};
    n :| n in items;
    var todo := items.Keys - {n};
    while todo != {}
      invariant todo <= items.Keys && n in items
      invariant forall m :: m in items && m !in todo ==> n <= m
    {
      var m :| m in todo;
      if m < n {
        n := m;
      }
      todo := todo - {m};
    }
  }

  ghost predicate Ascending(s: seq<nat>) {
    forall i, j :: 0 <= i < j < |s| ==> s[i] <= s[j]
  }

  /** The keys of a map in increasing order, standing for sort.Sort on the index. */
  method SortIndex(index: seq<nat>) returns (s: seq<nat>)
    ensures multiset(s) == multiset(index) && Ascending(s)
  {
    NonceOrder();
    var h := Heap.Init(NonceLess, index);
    s := [];
    while h != []
      invariant Heap.IsHeap(NonceLess, h) && multiset(s) + multiset(h) == multiset(index)
      invariant forall i, j :: 0 <= i < j < |s| ==> s[i] <= s[j]
      invariant forall i, j :: 0 <= i < |s| && 0 <= j < |h| ==> s[i] <= h[j]
      decreases |h|
    {
      var x, rest := Heap.Pop(NonceLess, h);
      forall j | 0 <= j < |rest|
        ensures rest[j] in h
      {
        assert rest[j] in multiset(rest);
        assert rest[j] in multiset(h);
      }
      assert |multiset(rest)| == |multiset(h)| - 1 by { assert x in multiset(h); }
      s := s + [x];
      h := rest;
    }
  }

  lemma SortedIsHeap(s: seq<nat>)
    requires Ascending(s)
    ensures Heap.IsHeap(NonceLess, s)
  {
  }

  /** Keys collected from a map in whatever order it is iterated. */
  method CollectKeys(items: Items) returns (index: seq<nat>)
    ensures multiset(index) == multiset(items.Keys)
  {
    index := [];
    var todo := items.Keys;
    while todo != {}
      invariant todo <= items.Keys && multiset(index) + multiset(todo) == multiset(items.Keys)
    {
      var n :| n in todo;
      assert multiset(todo) == multiset(todo - {n}) + multiset{n};
      index := index + [n];
      todo := todo - {n};
    }
  }

  /** `part` holds some of the entries of `whole`. */
  ghost predicate PartOf(part: Items, whole: Items) {
    forall n :: n in part ==> n in whole && part[n] == whole[n]
  }

  /** Pop the least nonce off the map and the index. */
  method PopLeast(items: Items, index: seq<nat>) returns (tx: Tx, items': Items, index': seq<nat>)
    requires Keyed(items) && IndexOk(items, index) && index != []
    ensures Keyed(items') && IndexOk(items', index') && |items'| < |items|
    ensures tx.nonce == index[0] && tx.nonce in items && items[tx.nonce] == tx && items' == items - {tx.nonce}
    ensures forall m :: m in items' ==> tx.nonce < m
    ensures Sorted(items) == [tx] + Sorted(items')
  {
    hide Sorted;
    NonceOrder();
    FrontIsLeastNonce(items, index);
    var nonce, rest := Heap.Pop(NonceLess, index);
    tx := items[nonce];
    SortedFirst(items, nonce);
    RemoveKey(items, nonce);
    items', index' := items - {nonce}, rest;
  }

  /** The loop of `Forward`. */
  method DropBelow(items: Items, index: seq<nat>, threshold: nat)
    returns (removed: seq<Tx>, items': Items, index': seq<nat>)
    requires Keyed(items) && IndexOk(items, index)
    ensures Keyed(items') && IndexOk(items', index') && PartOf(items', items)
    ensures forall n :: n in items' <==> n in items && n >= threshold
    ensures Sorted(items) == removed + Sorted(items')
    ensures forall i :: 0 <= i < |removed| ==> removed[i].nonce < threshold
  {
    hide Sorted, IndexOk;
    removed, items', index' := [], items, index;
    while |index'| > 0 && index'[0] < threshold
      invariant Keyed(items') && IndexOk(items', index') && PartOf(items', items)
      invariant forall n :: n in items && n >= threshold ==> n in items'
      invariant Sorted(items) == removed + Sorted(items')
      invariant forall i :: 0 <= i < |removed| ==> removed[i].nonce < threshold
      decreases |items'|
    {
      var tx;
      tx, items', index' := PopLeast(items', index');
      removed := removed + [tx];
    }
    LeastOrEmpty(items', index');
  }

  lemma LeastOrEmpty(items: Items, index: seq<nat>)
    requires IndexOk(items, index)
    ensures index == [] ==> items == map[]
    ensures index != [] ==> index[0] in items && forall m :: m in items ==> index[0] <= m
  {
    EmptyIndex(items, index);
    if index != [] {
      FrontIsLeastNonce(items, index);
    }
  }

  /** The loop of `Ready`: pop while the nonces are consecutive. */
  method PopRun(items: Items, index: seq<nat>) returns (ready: seq<Tx>, items': Items, index': seq<nat>)
    requires Keyed(items) && IndexOk(items, index) && index != []
    ensures Keyed(items') && IndexOk(items', index') && PartOf(items', items)
    ensures Sorted(items) == ready + Sorted(items')
    ensures |ready| > 0 && RunFrom(items, index[0], ready)
    ensures index[0] + |ready| !in items && forall n :: n in items' <==> n in items && n >= index[0] + |ready|
  {
    hide Sorted, IndexOk, RunFrom, Keyed;
    ready, items', index' := [], items, index;
    RunEmpty(items, index[0]);
    LeastOrEmpty(items, index);
    var next := index[0];
    while |index'| > 0 && index'[0] == next
      invariant Keyed(items') && IndexOk(items', index') && PartOf(items', items)
      invariant next == index[0] + |ready| && (ready == [] ==> index' == index)
      invariant Sorted(items) == ready + Sorted(items')
      invariant forall n :: n in items' <==> n in items && n >= next
      invariant RunFrom(items, index[0], ready)
      decreases |items'|
    {
      var tx;
      tx, items', index' := PopLeast(items', index');
      RunSnoc(items, index[0], ready, tx);
      ready := ready + [tx];
      next := next + 1;
    }
    LeastOrEmpty(items', index');
  }

  ghost predicate RunAt(items: Items, n: nat, t: Tx) {
    n in items && t == items[n] && t.nonce == n
  }

  /** `ready` holds the entries `first`, `first + 1`, and so on. */
  ghost predicate RunFrom(items: Items, first: nat, ready: seq<Tx>) {
    forall i {:trigger ready[i]} :: 0 <= i < |ready| ==> RunAt(items, first + i, ready[i])
  }

  lemma RunEmpty(items: Items, first: nat)
    ensures RunFrom(items, first, [])
  {
  }

  lemma RunSnoc(items: Items, first: nat, ready: seq<Tx>, tx: Tx)
    requires RunFrom(items, first, ready)
    requires tx.nonce == first + |ready| && tx.nonce in items && items[tx.nonce] == tx
    ensures RunFrom(items, first, ready + [tx])
  {
    var longer := ready + [tx];
    forall i | 0 <= i < |longer|
      ensures RunAt(items, first + i, longer[i])
    {
      if i < |ready| {
        assert longer[i] == ready[i];
      } else {
        assert longer[i] == tx && first + i == tx.nonce;
      }
    }
  }

  /** What a filter leaves. */
  function Kept(items: Items, drop: Tx -> bool): Items {
    map n | n in items && !drop(items[n]) :: items[n]
  }

  /** `removed` lists exactly the transactions to drop among those with nonces in `seen`, each once. */
  ghost predicate Dropped(items: Items, seen: set<nat>, drop: Tx -> bool, removed: seq<Tx>) {
    && (forall i :: 0 <= i < |removed| ==> DroppedAt(items, seen, drop, removed[i]))
    && (forall n :: n in items && n in seen && drop(items[n]) ==> items[n] in removed)
    && (forall i, j :: 0 <= i < j < |removed| ==> removed[i] != removed[j])
  }

  ghost predicate DroppedAt(items: Items, seen: set<nat>, drop: Tx -> bool, t: Tx) {
    t.nonce in seen && t.nonce in items && items[t.nonce] == t && drop(t)
  }

  /** The first loop of `Filter`, over the map in whatever order it is iterated. */
  method SplitItems(items: Items, drop: Tx -> bool) returns (removed: seq<Tx>, kept: Items)
    requires Keyed(items)
    ensures kept == Kept(items, drop) && Dropped(items, items.Keys, drop, removed)
    ensures removed == [] ==> kept == items
  {
    removed, kept := [], items;
    ghost var seen: set<nat> := {};
    var todo := items.Keys;
    while todo != {}
      invariant seen + todo == items.Keys && seen !! todo
      invariant PartOf(kept, items) && forall n :: n in items ==> (n in kept <==> n in todo || !drop(items[n]))
      invariant Dropped(items, seen, drop, removed)
      invariant removed == [] ==> kept == items
    {
      var n :| n in todo;
      SplitStep(items, seen, n, drop, removed);
      if drop(items[n]) {
        removed := removed + [items[n]];
        kept := kept - {n};
      }
      todo, seen := todo - {n}, seen + {n};
    }
    assert seen == items.Keys;
    assert kept == Kept(items, drop);
  }

  lemma SplitStep(items: Items, seen: set<nat>, n: nat, drop: Tx -> bool, removed: seq<Tx>)
    requires Keyed(items) && n in items && n !in seen && Dropped(items, seen, drop, removed)
    ensures Dropped(items, seen + {n}, drop, if drop(items[n]) then removed + [items[n]] else removed)
  {
    forall i | 0 <= i < |removed|
      ensures removed[i] != items[n] && DroppedAt(items, seen + {n}, drop, removed[i])
    {
      assert DroppedAt(items, seen, drop, removed[i]);
    }
  }

  /** What `Cap` does with the sorted index: drop from the highest nonce down until `threshold` are left. */
  ghost predicate Capped(items: Items, kept: Items, drops: seq<Tx>) {
    && PartOf(kept, items)
    && (forall n, m :: n in kept && m in items && m !in kept ==> n < m)
    && (forall n :: n in items && n !in kept ==> items[n] in drops)
    && (forall i :: 0 <= i < |drops| ==> CappedAt(items, kept, drops[i]))
    && Sorted(items) == Sorted(kept) + Reverse(drops)
  }

  ghost predicate CappedAt(items: Items, kept: Items, t: Tx) {
    t.nonce in items && t.nonce !in kept && items[t.nonce] == t
  }

  lemma CapStep(items: Items, kept: Items, drops: seq<Tx>, n: nat)
    requires Keyed(items) && Capped(items, kept, drops) && n in kept && forall m :: m in kept ==> m <= n
    ensures Capped(items, kept - {n}, drops + [kept[n]])
  {
    hide Sorted, Reverse;
    var kept', drops' := kept - {n}, drops + [kept[n]];
    SortedLast(kept, n);
    ReverseSnoc(drops, kept[n]);
    assert Sorted(kept) + Reverse(drops) == Sorted(kept') + Reverse(drops');
    forall i | 0 <= i < |drops'|
      ensures CappedAt(items, kept', drops'[i])
    {
      assert i < |drops| ==> CappedAt(items, kept, drops[i]);
    }
    forall m | m in items && m !in kept'
      ensures items[m] in drops'
    {
      if m == n {
        assert drops'[|drops|] == items[n];
      } else {
        assert items[m] in drops;
      }
    }
  }

  lemma ReverseSnoc(s: seq<Tx>, t: Tx)
    ensures Reverse(s + [t]) == [t] + Reverse(s)
  {
    assert (s + [t])[..|s + [t]| - 1] == s;
  }

  method DropAbove(items: Items, index: seq<nat>, threshold: nat)
    returns (drops: seq<Tx>, kept: Items, index': seq<nat>)
    requires Keyed(items) && IndexOk(items, index) && |items| > threshold
    ensures Capped(items, kept, drops) && |kept| == threshold && |drops| == |items| - threshold
    ensures IndexOk(kept, index')
  {
    hide Capped, Sorted, Keyed, KeysInOrder, Heap.IsHeap;
    var order := SortIndex(index);
    OrderOfAll(items, order);
    var size := |items|;
    drops, kept := [], items;
    CapStart(items);
    while size > threshold
      invariant threshold <= size <= |order| && |kept| == size && |drops| == |items| - size
      invariant KeysInOrder(kept, order[..size]) && Capped(items, kept, drops)
    {
      var n := order[size - 1];
      LastIsGreatest(kept, order, size);
      CapStep(items, kept, drops, n);
      drops := drops + [kept[n]];
      kept := kept - {n};
      size := size - 1;
    }
    index' := order[..threshold];
    OrderIsIndex(kept, index');
  }

  /** The nonces of a list in ascending order. */
  ghost predicate KeysInOrder(items: Items, order: seq<nat>) {
    multiset(order) == multiset(items.Keys) && Ascending(order)
  }

  lemma OrderOfAll(items: Items, order: seq<nat>)
    requires multiset(order) == multiset(items.Keys) && Ascending(order)
    ensures |order| == |items| && KeysInOrder(items, order[..|items|])
  {
    IndexMembers(items, order);
    assert order[..|items|] == order;
  }

  lemma OrderIsIndex(items: Items, order: seq<nat>)
    requires KeysInOrder(items, order)
    ensures IndexOk(items, order)
  {
    SortedIsHeap(order);
  }

  lemma CapStart(items: Items)
    ensures Capped(items, items, [])
  {
    assert Sorted(items) + Reverse([]) == Sorted(items);
  }

  lemma LastIsGreatest(items: Items, all: seq<nat>, size: nat)
    requires 0 < size <= |all| && KeysInOrder(items, all[..size])
    ensures var n := all[size - 1];
            && n in items && (forall m :: m in items ==> m <= n)
            && |items - {n}| == |items| - 1 && KeysInOrder(items - {n}, all[..size - 1])
  {
    hide Ascending;
    var order, front, n := all[..size], all[..size - 1], all[size - 1];
    assert order == front + [n];
    assert multiset(order) == multiset(front) + multiset{n};
    IndexMembers(items, order);
    assert n in order;
    AscendingSnoc(front, n);
    RemoveKey(items, n);
  }

  lemma AscendingSnoc(front: seq<nat>, n: nat)
    requires Ascending(front + [n])
    ensures Ascending(front) && forall m :: m in front + [n] ==> m <= n
  {
    var order := front + [n];
    assert order[|front|] == n;
    forall i, j | 0 <= i < j < |front|
      ensures front[i] <= front[j]
    {
      assert order[i] == front[i] && order[j] == front[j];
    }
  }

  function Reverse(s: seq<Tx>): seq<Tx> {
    if s == [] then [] else [s[|s| - 1]] + Reverse(s[..|s| - 1])
  }

  lemma {:induction false} ReverseLength(s: seq<Tx>)
    ensures |Reverse(s)| == |s|
  {
    if s != [] {
      ReverseLength(s[..|s| - 1]);
    }
  }

  lemma CapCutsBack(items: Items, kept: Items, drops: seq<Tx>)
    requires Capped(items, kept, drops)
    ensures |drops| <= |Sorted(items)| && Sorted(items)[..|Sorted(items)| - |drops|] == Sorted(kept)
  {
    ReverseLength(drops);
  }

  /** The index after a nonce joins. */
  method AddToIndex(items: Items, index: seq<nat>, tx: Tx) returns (index': seq<nat>)
    requires IndexOk(items, index)
    ensures IndexOk(items[tx.nonce := tx], index')
  {
    NonceOrder();
    if tx.nonce !in items {
      index' := Heap.Push(NonceLess, index, tx.nonce);
      assert items[tx.nonce := tx].Keys == items.Keys + {tx.nonce};
    } else {
      index' := index;
      assert items[tx.nonce := tx].Keys == items.Keys;
    }
  }

  /** Find the nonce in the index by linear search and take it out. */
  method RemoveFromIndex(items: Items, index: seq<nat>, nonce: nat) returns (index': seq<nat>)
    requires IndexOk(items, index) && nonce in items
    ensures IndexOk(items - {nonce}, index')
  {
    NonceOrder();
    IndexMembers(items, index);
    var i := 0;
    while index[i] != nonce
      invariant 0 <= i < |index| && exists j :: i <= j < |index| && index[j] == nonce
      decreases |index| - i
    {
      i := i + 1;
    }
    RemoveKey(items, nonce);
    index' := Heap.Remove(NonceLess, index, i);
  }

  class TxSortedMap {
    var items: Items
    var index: seq<nat>
    var cache: Option<seq<Tx>>

    constructor ()
      ensures Valid() && items == map[]
    {
      items, index, cache := map[], [], None;
    }

    ghost predicate Valid()
      reads this
    {
      && Keyed(items) && IndexOk(items, index)
      && (cache.Some? ==> cache.value == Sorted(items))
    }

    method Put(tx: Tx)
      requires Valid()
      modifies this
      ensures Valid() && items == old(items)[tx.nonce := tx]
    {
      index := AddToIndex(items, index, tx);
      items, cache := items[tx.nonce := tx], None;
    }

    /** Removes, in order, everything below the threshold. A cached order is shifted at the front. */
    method Forward(threshold: nat) returns (removed: seq<Tx>)
      requires Valid()
      modifies this
      ensures Valid() && PartOf(items, old(items)) && forall n :: n in items <==> n in old(items) && n >= threshold
      ensures Sorted(old(items)) == removed + Sorted(items)
      ensures forall i :: 0 <= i < |removed| ==> removed[i].nonce < threshold
    {
      hide Sorted, IndexOk, Keyed;
      removed, items, index := DropBelow(items, index, threshold);
      if cache.Some? {
        cache := Some(cache.value[|removed|..]);
      }
    }

    /** Removes every transaction the predicate holds of; the index is rebuilt if there was any. */
    method Filter(drop: Tx -> bool) returns (removed: seq<Tx>)
      requires Valid()
      modifies this
      ensures Valid() && items == Kept(old(items), drop) && Dropped(old(items), old(items).Keys, drop, removed)
    {
      hide Sorted, Dropped;
      var kept;
      removed, kept := SplitItems(items, drop);
      if |removed| > 0 {
        items := kept;
        var keys := CollectKeys(items);
        NonceOrder();
        index := Heap.Init(NonceLess, keys);
        cache := None;
      }
    }

    /** Keeps the `threshold` lowest nonces; the rest is returned from the highest down. A cached order is
        cut at the back. */
    method Cap(threshold: nat) returns (drops: seq<Tx>)
      requires Valid()
      modifies this
      ensures Valid() && Capped(old(items), items, drops)
      ensures |items| == if |old(items)| <= threshold then |old(items)| else threshold
      ensures |drops| == |old(items)| - |items|
    {
      hide Sorted, Capped, IndexOk;
      if |items| <= threshold {
        CapStart(items);
        return [];
      }
      ghost var before := items;
      drops, items, index := DropAbove(items, index, threshold);
      CapKeyed(before, items, drops);
      if cache.Some? {
        CapCutsBack(before, items, drops);
        cache := Some(cache.value[..|cache.value| - |drops|]);
      }
    }

    method Remove(nonce: nat) returns (found: bool)
      requires Valid()
      modifies this
      ensures Valid() && found == (nonce in old(items)) && items == old(items) - {nonce}
    {
      hide Sorted, IndexOk;
      if nonce !in items {
        assert items - {nonce} == items;
        return false;
      }
      index := RemoveFromIndex(items, index, nonce);
      items, cache := items - {nonce}, None;
      return true;
    }

    /** If the lowest nonce is not above `start`, returns and removes the longest gap-free run from it. */
    method Ready(start: nat) returns (ready: seq<Tx>)
      requires Valid()
      modifies this
      ensures Valid() && Sorted(old(items)) == ready + Sorted(items) && PartOf(items, old(items))
      ensures ready == [] <==> forall n :: n in old(items) ==> n > start
      ensures ready == [] ==> items == old(items)
      ensures ready != [] ==>
                var first := ready[0].nonce;
                && first <= start && (forall n :: n in old(items) ==> first <= n)
                && RunFrom(old(items), first, ready) && first + |ready| !in old(items)
                && forall n :: n in items <==> n in old(items) && n >= first + |ready|
    {
      hide Sorted, IndexOk, Keyed;
      LeastOrEmpty(items, index);
      if |index| == 0 || index[0] > start {
        assert [] + Sorted(items) == Sorted(items);
        return [];
      }
      ready, items, index := PopRun(items, index);
      cache := None;
    }

    method Flatten() returns (txs: seq<Tx>)
      requires Valid()
      modifies this`cache
      ensures Valid() && txs == Sorted(items)
    {
      if cache.None? {
        var s := SortByNonce(items);
        cache := Some(s);
      }
      txs := cache.value;
    }
  }

  lemma CapKeyed(items: Items, kept: Items, drops: seq<Tx>)
    requires Keyed(items) && Capped(items, kept, drops)
    ensures Keyed(kept)
  {
  }
}
