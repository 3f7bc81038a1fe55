/** The price heap of the pool (txPricedList in core/tx_list.go). Entries of transactions that have left
    the pool stay until they are met or the heap is rebuilt; `stales` counts them. The set of pooled
    transactions is passed in where the source holds a reference to it. */
module PricedList {
  import opened Types
  import Heap

  /** Cheaper first; among equal prices the higher nonce is the worse. */
  function PriceLess(a: Tx, b: Tx): bool {
    a.price < b.price || (a.price == b.price && a.nonce > b.nonce)
  }

  lemma PriceOrder()
    ensures Heap.Order(PriceLess)
  {
  }

  /** Every one of these transactions has an entry. */
  ghost predicate Backed(txs: set<Tx>, items: seq<Tx>) {
    forall t :: t in txs ==> t in items
  }

  /** A heap with an entry for every pooled transaction, and at least as many stales counted as there are
      surplus entries. */
  ghost predicate PricedOk(all: set<Tx>, items: seq<Tx>, stales: int) {
    Heap.IsHeap(PriceLess, items) && Backed(all, items) && stales >= |items| - |all|
  }

  /** The counter is never negative. */
  lemma StalesNotNegative(all: set<Tx>, items: seq<Tx>, stales: int)
    requires PricedOk(all, items, stales)
    ensures stales >= 0 && |items| >= |all|
  {
    BackedSize(all, items);
  }

  lemma {:induction false} BackedSize(all: set<Tx>, items: seq<Tx>)
    requires Backed(all, items)
    ensures |all| <= |items|
  {
    if items != [] {
      var rest := all - {items[0]};
      forall t | t in rest
        ensures t in items[1..]
      {
        assert t in items;
      }
      BackedSize(rest, items[1..]);
    } else {
      EmptyPool(all, items);
    }
  }

  predicate Remote(t: Tx, locals: set<Address>) {
    t.from !in locals
  }

  /** What has been taken off the heap so far: dropped, saved for putting back, or stale. Nothing still on
      the heap is cheaper than anything taken. */
  ghost predicate Taken(start: seq<Tx>, items: seq<Tx>, drop: seq<Tx>, save: seq<Tx>, gone: seq<Tx>) {
    && Heap.IsHeap(PriceLess, items)
    && multiset(start) == multiset(items) + multiset(drop) + multiset(save) + multiset(gone)
    && NotBefore(items, drop) && NotBefore(items, save) && NotBefore(items, gone)
  }

  ghost predicate NotBefore(items: seq<Tx>, taken: seq<Tx>) {
    forall y, x :: y in items && x in taken ==> !PriceLess(y, x)
  }

  ghost predicate Live(txs: seq<Tx>, all: set<Tx>) {
    forall x :: x in txs ==> x in all
  }

  ghost predicate Stale(txs: seq<Tx>, all: set<Tx>) {
    forall x :: x in txs ==> x !in all
  }

  /** Pop the cheapest entry. */
  method PopCheapest(ghost start: seq<Tx>, items: seq<Tx>, ghost drop: seq<Tx>, ghost save: seq<Tx>,
                     ghost gone: seq<Tx>)
    returns (x: Tx, rest: seq<Tx>)
    requires Taken(start, items, drop, save, gone) && items != []
    ensures x == items[0] && |rest| == |items| - 1
    ensures Taken(start, rest, drop + [x], save, gone)
    ensures Taken(start, rest, drop, save + [x], gone)
    ensures Taken(start, rest, drop, save, gone + [x])
    ensures forall y :: y in rest ==> !PriceLess(y, x) && y in items
  {
    PriceOrder();
    x, rest := Heap.Pop(PriceLess, items);
    assert x in multiset(items);
    assert |multiset(rest)| == |rest| && |multiset(items)| == |items|;
    forall y | y in rest
      ensures y in items
    {
      assert y in multiset(rest);
      assert y in multiset(items);
    }
    assert NotBefore(rest, [x]);
    NotBeforeSnoc(rest, items, drop, x);
    NotBeforeSnoc(rest, items, save, x);
    NotBeforeSnoc(rest, items, gone, x);
  }

  lemma NotBeforeSnoc(rest: seq<Tx>, items: seq<Tx>, taken: seq<Tx>, x: Tx)
    requires NotBefore(items, taken) && NotBefore(rest, [x]) && forall y :: y in rest ==> y in items
    ensures NotBefore(rest, taken) && NotBefore(rest, taken + [x])
  {
    forall y, z | y in rest && z in taken + [x]
      ensures !PriceLess(y, z)
    {
      if z !in taken {
        assert z in [x];
      }
    }
  }

  lemma TakenNothing(items: seq<Tx>)
    requires Heap.IsHeap(PriceLess, items)
    ensures Taken(items, items, [], [], [])
  {
  }

  lemma TakenHeap(start: seq<Tx>, items: seq<Tx>, drop: seq<Tx>, save: seq<Tx>, gone: seq<Tx>)
    requires Taken(start, items, drop, save, gone)
    ensures Heap.IsHeap(PriceLess, items)
    ensures multiset(start) == multiset(items) + multiset(drop) + multiset(save) + multiset(gone)
  {
  }

  /** The pool once the listed transactions have left it. */
  function Without(all: set<Tx>, drop: seq<Tx>): set<Tx> {
    set t | t in all && t !in drop
  }

  /** Push the saved transactions back. */
  method PutBack(items: seq<Tx>, save: seq<Tx>) returns (items': seq<Tx>)
    requires Heap.IsHeap(PriceLess, items)
    ensures Heap.IsHeap(PriceLess, items') && multiset(items') == multiset(items) + multiset(save)
    ensures |items'| == |items| + |save|
  {
    PriceOrder();
    items' := items;
    for i := 0 to |save|
      invariant Heap.IsHeap(PriceLess, items') && multiset(items') == multiset(items) + multiset(save[..i])
    {
      items' := Heap.Push(PriceLess, items', save[i]);
      assert save[..i + 1] == save[..i] + [save[i]];
    }
    assert save[..|save|] == save;
    assert |multiset(items')| == |items'|;
  }

  /** Whatever was on the heap is accounted for. */
  lemma WhereIs(start: seq<Tx>, items: seq<Tx>, drop: seq<Tx>, save: seq<Tx>, gone: seq<Tx>, t: Tx)
    requires multiset(start) == multiset(items) + multiset(drop) + multiset(save) + multiset(gone)
    ensures t in start <==> t in items || t in drop || t in save || t in gone
    ensures |start| == |items| + |drop| + |save| + |gone|
  {
    assert t in start <==> t in multiset(start);
    assert |multiset(start)| == |multiset(items)| + |multiset(drop)| + |multiset(save)| + |multiset(gone)|;
  }

  lemma BackedAfter(start: seq<Tx>, items: seq<Tx>, drop: seq<Tx>, save: seq<Tx>, gone: seq<Tx>, all: set<Tx>,
                    items': seq<Tx>)
    requires Taken(start, items, drop, save, gone) && Stale(gone, all) && Backed(all, start)
    requires multiset(items') == multiset(items) + multiset(save)
    ensures Backed(Without(all, drop), items')
    ensures |items'| == |start| - |drop| - |gone|
  {
    forall t | t in all && t !in drop
      ensures t in items'
    {
      WhereIs(start, items, drop, save, gone, t);
      assert t in items' <==> t in multiset(items');
    }
    WhereIs(start, items, drop, save, gone, Tx(0, 0, 0, 0, 0, None, [], 0));
    assert |multiset(items')| == |multiset(items)| + |multiset(save)|;
  }

  class TxPricedList {
    var items: seq<Tx>
    var stales: int

    constructor ()
      ensures items == [] && stales == 0 && PricedOk({}, items, stales)
    {
      items, stales := [], 0;
    }

    method Put(tx: Tx)
      requires Heap.IsHeap(PriceLess, items)
      modifies this
      ensures Heap.IsHeap(PriceLess, items) && multiset(items) == old(multiset(items)) + multiset{tx}
      ensures stales == old(stales)
    {
      PriceOrder();
      items := Heap.Push(PriceLess, items, tx);
    }

    /** A transaction has left the pool by another way than through this heap. Once more than a quarter of
        the entries are counted stale the heap is rebuilt from the pool. */
    method Removed(all: set<Tx>)
      requires Heap.IsHeap(PriceLess, items)
      modifies this
      ensures Heap.IsHeap(PriceLess, items)
      ensures (items == old(items) && stales == old(stales) + 1) || (multiset(items) == multiset(all) && stales == 0)
      ensures old(stales) + 1 > |old(items)| / 4 ==> multiset(items) == multiset(all) && stales == 0
    {
      stales := stales + 1;
      if stales <= |items| / 4 {
        return;
      }
      var reheap: seq<Tx> := [];
      var todo := all;
      while todo != {}
        invariant todo <= all && multiset(reheap) + multiset(todo) == multiset(all)
      {
        var t :| t in todo;
        assert multiset(todo) == multiset(todo - {t}) + multiset{t};
        reheap := reheap + [t];
        todo := todo - {t};
      }
      PriceOrder();
      stales := 0;
      items := Heap.Init(PriceLess, reheap);
    }

    /** Drops exactly the pooled remote transactions below the threshold, as a scan of the whole pool would.
        A transaction re-added while stale has several entries and is then listed several times. */
    method Cap(threshold: nat, all: set<Tx>, locals: set<Address>) returns (drop: seq<Tx>)
      requires Heap.IsHeap(PriceLess, items) && Backed(all, items)
      modifies this
      ensures forall t :: t in drop <==> t in all && t.price < threshold && Remote(t, locals)
      ensures Heap.IsHeap(PriceLess, items) && Backed(Without(all, drop), items)
      ensures stales - |items| == old(stales) - |old(items)| + |drop|
      ensures multiset(items) + multiset(drop) <= old(multiset(items))
    {
      hide Taken;
      TakenNothing(items);
      ghost var start, gone: seq<Tx> := items, [];
      var heap, save: seq<Tx>, met := items, [], false;
      drop := [];
      while |heap| > 0 && !met
        invariant Taken(start, heap, drop, save, gone)
        invariant Live(drop, all) && Stale(gone, all)
        invariant forall x :: x in drop ==> x.price < threshold && Remote(x, locals)
        invariant forall x :: x in save ==> x.price >= threshold || !Remote(x, locals)
        invariant met ==> forall y :: y in heap ==> y.price >= threshold
        invariant stales == old(stales) - |gone|
        invariant items == old(items)
        decreases |heap|
      {
        var tx;
        tx, heap := PopCheapest(start, heap, drop, save, gone);
        if tx !in all {
          stales := stales - 1;
          gone := gone + [tx];
        } else if tx.price >= threshold {
          save := save + [tx];
          met := true;
        } else if tx.from in locals {
          save := save + [tx];
        } else {
          drop := drop + [tx];
        }
      }
      TakenHeap(start, heap, drop, save, gone);
      items := PutBack(heap, save);
      BackedAfter(start, heap, drop, save, gone, all, items);
      forall t | t in all && t.price < threshold && Remote(t, locals)
        ensures t in drop
      {
        WhereIs(start, heap, drop, save, gone, t);
      }
    }

    /** Whether a transaction is no dearer than everything pooled, as a scan of the whole pool would tell. */
    method Underpriced(tx: Tx, all: set<Tx>, locals: set<Address>) returns (r: bool)
      requires Heap.IsHeap(PriceLess, items) && Backed(all, items)
      modifies this
      ensures r <==> Remote(tx, locals) && all != {} && forall t :: t in all ==> t.price >= tx.price
      ensures Heap.IsHeap(PriceLess, items) && Backed(all, items)
      ensures stales - |items| == old(stales) - |old(items)| && multiset(items) <= old(multiset(items))
    {
      if tx.from in locals {
        return false;
      }
      hide Taken;
      TakenNothing(items);
      ghost var start, gone: seq<Tx> := items, [];
      var heap := items;
      while |heap| > 0 && heap[0] !in all
        invariant Taken(start, heap, [], [], gone) && Stale(gone, all)
        invariant stales == old(stales) - |gone| && items == old(items)
        decreases |heap|
      {
        stales := stales - 1;
        var head;
        head, heap := PopCheapest(start, heap, [], [], gone);
        gone := gone + [head];
      }
      items := heap;
      TakenHeap(start, heap, [], [], gone);
      BackedAfter(start, heap, [], [], gone, all, items);
      assert Without(all, []) == all;
      if |items| == 0 {
        EmptyPool(all, items);
        return false;
      }
      var cheapest := items[0];
      CheapestOfAll(all, items);
      r := cheapest.price >= tx.price;
    }

    /** Drops up to `count` of the cheapest remote transactions: none of them is dearer than a remote one that
        stays, and if it runs short none is left. */
    method Discard(count: nat, all: set<Tx>, locals: set<Address>) returns (drop: seq<Tx>)
      requires Heap.IsHeap(PriceLess, items) && Backed(all, items)
      modifies this
      ensures forall t :: t in drop ==> t in all && Remote(t, locals)
      ensures |drop| <= count
      ensures forall d, k :: d in drop && k in all && Remote(k, locals) && k !in drop ==>
                d.price < k.price || (d.price == k.price && d.nonce >= k.nonce)
      ensures |drop| < count ==> forall k :: k in all && Remote(k, locals) ==> k in drop
      ensures Heap.IsHeap(PriceLess, items) && Backed(Without(all, drop), items)
      ensures stales - |items| == old(stales) - |old(items)| + |drop|
      ensures multiset(items) + multiset(drop) <= old(multiset(items))
    {
      ghost var start, gone: seq<Tx> := items, [];
      var heap, save: seq<Tx>, left := items, [], count;
      drop := [];
      while |heap| > 0 && left > 0
        invariant Taken(start, heap, drop, save, gone)
        invariant Live(drop, all) && Stale(gone, all) && |drop| + left == count
        invariant forall x :: x in drop ==> Remote(x, locals)
        invariant forall x :: x in save ==> !Remote(x, locals)
        invariant stales == old(stales) - |gone|
        invariant items == old(items)
        decreases |heap|
      {
        var tx;
        tx, heap := PopCheapest(start, heap, drop, save, gone);
        if tx !in all {
          stales := stales - 1;
          gone := gone + [tx];
        } else if tx.from in locals {
          save := save + [tx];
        } else {
          drop := drop + [tx];
          left := left - 1;
        }
      }
      items := PutBack(heap, save);
      BackedAfter(start, heap, drop, save, gone, all, items);
      forall k | k in all && Remote(k, locals) && k !in drop
        ensures k in heap
      {
        WhereIs(start, heap, drop, save, gone, k);
      }
    }
  }

  lemma EmptyPool(all: set<Tx>, items: seq<Tx>)
    requires Backed(all, items) && items == []
    ensures all == {}
  {
    forall t
      ensures t !in all
    {
    }
  }

  lemma CheapestOfAll(all: set<Tx>, items: seq<Tx>)
    requires Heap.IsHeap(PriceLess, items) && Backed(all, items) && items != []
    ensures forall t :: t in all ==> items[0].price <= t.price
  {
    PriceOrder();
    forall t | t in all
      ensures items[0].price <= t.price
    {
      assert t in items;
      var k :| 0 <= k < |items| && items[k] == t;
      Heap.FrontIsLeast(PriceLess, items, k);
    }
  }
}
