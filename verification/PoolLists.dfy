/** The list operations the pool uses, on the contents of a list: what each takes off and what stays. */
module PoolLists {
  import opened Types
  import opened SortedMap
  import opened TxList
  import Heap

  /** What leaves a list. */
  ghost function Lost(items: Items, rest: Items): set<Tx> {
    set n | n in items && n !in rest :: items[n]
  }

  ghost predicate NoRepeats(txs: seq<Tx>) {
    forall i, j :: 0 <= i < j < |txs| ==> txs[i] != txs[j]
  }

  /** `off` lists exactly what was taken off `items` to leave `rest`, each once. */
  ghost predicate TakenOff(items: Items, rest: Items, off: seq<Tx>) {
    PartOf(rest, items) && NoRepeats(off) && forall t :: t in off <==> t in Lost(items, rest)
  }

  ghost function FromNonce(items: Items, n: nat): Items {
    map m | m in items && m >= n :: items[m]
  }

  ghost function BelowNonce(items: Items, n: nat): Items {
    map m | m in items && m < n :: items[m]
  }

  function Below(nonce: nat): Tx -> bool {
    (t: Tx) => t.nonce < nonce
  }

  lemma DroppedIsTakenOff(items: Items, drop: Tx -> bool, off: seq<Tx>)
    requires Keyed(items) && Dropped(items, items.Keys, drop, off)
    ensures TakenOff(items, Kept(items, drop), off)
  {
    var rest := Kept(items, drop);
    forall t
      ensures t in off <==> t in Lost(items, rest)
    {
      if t in off {
        var i :| 0 <= i < |off| && off[i] == t;
        assert DroppedAt(items, items.Keys, drop, t);
      }
    }
  }

  /** Forward. */
  method Forward(items: Items, threshold: nat) returns (off: seq<Tx>, rest: Items)
    requires Keyed(items)
    ensures rest == FromNonce(items, threshold) && TakenOff(items, rest, off)
  {
    hide Dropped, TakenOff;
    off, rest := SplitItems(items, Below(threshold));
    DroppedIsTakenOff(items, Below(threshold), off);
  }

  /** Filter on a list that may have gaps. */
  method Filter(items: Items, costLimit: nat, gasLimit: nat) returns (off: seq<Tx>, rest: Items)
    requires Keyed(items)
    ensures rest == Kept(items, UnpayableAt(costLimit, gasLimit)) && TakenOff(items, rest, off)
  {
    hide Dropped, TakenOff;
    off, rest := SplitItems(items, UnpayableAt(costLimit, gasLimit));
    DroppedIsTakenOff(items, UnpayableAt(costLimit, gasLimit), off);
  }

  /** Either everything is left or the list was cut at an unpayable transaction. */
  ghost predicate CutAtUnpayable(items: Items, costLimit: nat, gasLimit: nat, rest: Items) {
    rest == items || exists n :: n in items && Unpayable(items[n], costLimit, gasLimit) && rest == BelowNonce(items, n)
  }

  /** Filter on a gap-free list: `off` is unpayable, `invalids` lies above the lowest of those. */
  method FilterStrict(items: Items, costLimit: nat, gasLimit: nat)
    returns (off: seq<Tx>, invalids: seq<Tx>, payable: Items, rest: Items)
    requires Keyed(items)
    ensures payable == Kept(items, UnpayableAt(costLimit, gasLimit)) && Keyed(payable)
    ensures TakenOff(items, payable, off) && TakenOff(payable, rest, invalids)
    ensures CutAtUnpayable(items, costLimit, gasLimit, rest)
    ensures forall n :: n in rest ==> !Unpayable(rest[n], costLimit, gasLimit)
  {
    hide Dropped, TakenOff;
    off, rest := SplitItems(items, UnpayableAt(costLimit, gasLimit));
    DroppedIsTakenOff(items, UnpayableAt(costLimit, gasLimit), off);
    payable, invalids := rest, [];
    if off == [] {
      NothingOff(payable);
    } else {
      var lowest := LowestNonce(off);
      invalids, rest := SplitItems(rest, Above(lowest));
      DroppedIsTakenOff(payable, Above(lowest), invalids);
      StrictFilterLeaves(items, costLimit, gasLimit, off, lowest, rest);
      assert rest == BelowNonce(items, lowest);
    }
  }

  lemma NothingOff(items: Items)
    ensures TakenOff(items, items, [])
  {
  }

  /** Remove on a gap-free list: what is left lies below the nonce, what lies above is invalidated. */
  method RemoveStrict(items: Items, nonce: nat) returns (invalids: seq<Tx>, rest: Items)
    requires Keyed(items) && nonce in items
    ensures rest == BelowNonce(items, nonce)
    ensures TakenOff(items - {nonce}, rest, invalids)
  {
    hide Dropped, TakenOff;
    invalids, rest := SplitItems(items - {nonce}, Above(nonce));
    DroppedIsTakenOff(items - {nonce}, Above(nonce), invalids);
  }

  /** Cap: the lowest nonces stay. */
  method Cap(items: Items, threshold: nat) returns (off: seq<Tx>, rest: Items)
    requires Keyed(items)
    ensures TakenOff(items, rest, off) && |rest| == if |items| <= threshold then |items| else threshold
    ensures forall n, m :: n in rest && m in items && m !in rest ==> n < m
    ensures |off| == |items| - |rest|
  {
    hide Sorted, TakenOff;
    if |items| <= threshold {
      NothingOff(items);
      return [], items;
    }
    NonceOrder();
    var index: seq<nat> := CollectKeys(items);
    index := Heap.Init(NonceLess, index);
    off, rest, index := DropAbove(items, index, threshold);
    CappedIsTakenOff(items, rest, off);
  }

  lemma CappedIsTakenOff(items: Items, rest: Items, off: seq<Tx>)
    requires Keyed(items) && Capped(items, rest, off)
    ensures TakenOff(items, rest, off)
  {
    hide Sorted, Reverse;
    forall t
      ensures t in off <==> t in Lost(items, rest)
    {
      if t in off {
        var i :| 0 <= i < |off| && off[i] == t;
        assert CappedAt(items, rest, off[i]);
      }
    }
    SortedIsContents(items);
    ReverseLength(off);
    forall i, j | 0 <= i < j < |off|
      ensures off[i] != off[j]
    {
      var k := |Sorted(rest)|;
      ReverseAt(off, |off| - 1 - i);
      ReverseAt(off, |off| - 1 - j);
      assert Sorted(items)[k + (|off| - 1 - j)] == off[j];
      assert Sorted(items)[k + (|off| - 1 - i)] == off[i];
    }
  }

  lemma {:induction false} ReverseAt(s: seq<Tx>, k: nat)
    requires k < |s|
    ensures |Reverse(s)| == |s| && Reverse(s)[k] == s[|s| - 1 - k]
  {
    ReverseLength(s);
    if k > 0 {
      ReverseAt(s[..|s| - 1], k - 1);
    }
  }

  /** Ready: the run of consecutive nonces from the lowest, if that is not above `start`. */
  method Ready(items: Items, start: nat) returns (ready: seq<Tx>, rest: Items)
    requires Keyed(items)
    ensures TakenOff(items, rest, ready)
    ensures ready == [] <==> forall n :: n in items ==> n > start
    ensures ready != [] ==>
              var first := ready[0].nonce;
              first <= start && (forall n :: n in items ==> first <= n) && RunFrom(items, first, ready)
              && first + |ready| !in items && rest == FromNonce(items, first + |ready|)
    ensures ready == [] ==> rest == items
  {
    hide Sorted, TakenOff;
    NonceOrder();
    var index: seq<nat> := CollectKeys(items);
    index := Heap.Init(NonceLess, index);
    LeastOrEmpty(items, index);
    if |index| == 0 || index[0] > start {
      NothingOff(items);
      return [], items;
    }
    var index';
    ready, rest, index' := PopRun(items, index);
    RunIsTakenOff(items, index[0], ready, rest);
  }

  lemma RunIsTakenOff(items: Items, first: nat, ready: seq<Tx>, rest: Items)
    requires Keyed(items) && RunFrom(items, first, ready) && PartOf(rest, items)
    requires (forall n :: n in items ==> first <= n) && forall n :: n in rest <==> n in items && n >= first + |ready|
    ensures TakenOff(items, rest, ready) && rest == FromNonce(items, first + |ready|)
  {
    forall t
      ensures t in ready <==> t in Lost(items, rest)
    {
      if t in Lost(items, rest) {
        assert ready[t.nonce - first] == t;
      }
    }
    assert rest == FromNonce(items, first + |ready|);
  }

  /******* Agreement with the list object: what its operations promise determines the contents above *******/

  lemma ForwardAgrees(items: Items, threshold: nat, left: Items)
    requires PartOf(left, items) && forall n :: n in left <==> n in items && n >= threshold
    ensures left == FromNonce(items, threshold)
  {
    assert left.Keys == FromNonce(items, threshold).Keys;
  }

  lemma RemoveAgrees(items: Items, nonce: nat)
    requires Keyed(items) && nonce in items
    ensures Kept(items - {nonce}, Above(nonce)) == BelowNonce(items, nonce)
  {
    assert Kept(items - {nonce}, Above(nonce)).Keys == BelowNonce(items, nonce).Keys;
  }

  lemma FilterAgrees(items: Items, costLimit: nat, gasLimit: nat, lowest: nat, rest: Items)
    requires LowestUnpayable(items, costLimit, gasLimit, lowest) && CutAtUnpayable(items, costLimit, gasLimit, rest)
    requires forall n :: n in rest ==> !Unpayable(rest[n], costLimit, gasLimit)
    ensures rest == BelowNonce(items, lowest)
  {
    hide Unpayable;
    assert lowest in rest ==> rest[lowest] == items[lowest];
  }

  lemma CapAgrees(items: Items, left: Items, drops: seq<Tx>, rest: Items)
    requires Keyed(items) && Capped(items, left, drops) && PartOf(rest, items) && |left| == |rest|
    requires forall n, m :: n in rest && m in items && m !in rest ==> n < m
    ensures left == rest
  {
    CappedAtTop(items, left, drops);
    if !(left.Keys <= rest.Keys) {
      var n :| n in left.Keys && n !in rest.Keys;
      assert forall m :: m in rest ==> m in left;
      KeysBelow(rest, left, n);
    } else {
      KeysWithin(left, rest);
    }
  }

  lemma ReadyAgrees(items: Items, first: nat, ready: seq<Tx>, ready': seq<Tx>)
    requires RunFrom(items, first, ready) && RunFrom(items, first, ready')
    requires first + |ready| !in items && first + |ready'| !in items
    ensures ready == ready'
  {
    assert |ready| < |ready'| ==> RunAt(items, first + |ready|, ready'[|ready|]);
    assert |ready'| < |ready| ==> RunAt(items, first + |ready'|, ready[|ready'|]);
    forall i | 0 <= i < |ready|
      ensures ready[i] == ready'[i]
    {
      assert RunAt(items, first + i, ready[i]) && RunAt(items, first + i, ready'[i]);
    }
  }

  /** The nonces left by a cap are the lowest. */
  lemma CappedAtTop(items: Items, left: Items, drops: seq<Tx>)
    requires Keyed(items) && Capped(items, left, drops)
    ensures PartOf(left, items) && forall n, m :: n in left && m in items && m !in left ==> n < m
  {
  }

  lemma KeysWithin(left: Items, rest: Items)
    requires left.Keys <= rest.Keys && |left| == |rest|
    ensures left.Keys == rest.Keys
  {
    assert |left.Keys| == |rest.Keys|;
    assert rest.Keys == left.Keys + (rest.Keys - left.Keys);
  }

  lemma KeysBelow(rest: Items, left: Items, n: nat)
    requires rest.Keys <= left.Keys && n in left.Keys && n !in rest.Keys
    ensures |rest| < |left|
  {
    assert |left.Keys| == |left| && |rest.Keys| == |rest|;
    assert left.Keys == rest.Keys + (left.Keys - rest.Keys);
    assert n in left.Keys - rest.Keys;
  }
}
