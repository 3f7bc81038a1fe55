/** Binary heaps in a slice, with the contracts of Go's container/heap: `less` orders the elements,
    the least one is at the front. */
module Heap {

  /** `less` is the strict part of a total preorder. */
  ghost predicate Order<T(!new)>(less: (T, T) -> bool) {
    && (forall a, b {:trigger less(a, b)} :: less(a, b) ==> !less(b, a))
    && (forall a, b, c {:trigger less(b, a), less(c, b)} :: !less(b, a) && !less(c, b) ==> !less(c, a))
  }

  lemma Irreflexive<T(!new)>(less: (T, T) -> bool, a: T)
    requires Order(less)
    ensures !less(a, a)
  {
  }

  function Parent(k: nat): nat
    requires k > 0
  {
    (k - 1) / 2
  }

  /** Element `k` is not less than its parent. */
  ghost predicate InPlace<T>(less: (T, T) -> bool, h: seq<T>, k: nat)
    requires 0 < k < |h|
  {
    !less(h[k], h[Parent(k)])
  }

  /** Every element whose parent is at `lo` or beyond is in place. */
  ghost predicate HeapFrom<T>(less: (T, T) -> bool, h: seq<T>, lo: nat) {
    forall k {:trigger InPlace(less, h, k)} :: 0 < k < |h| && Parent(k) >= lo ==> InPlace(less, h, k)
  }

  ghost predicate IsHeap<T>(less: (T, T) -> bool, h: seq<T>) {
    HeapFrom(less, h, 0)
  }

  /** The front of a heap is least. */
  lemma {:induction false} FrontIsLeast<T(!new)>(less: (T, T) -> bool, h: seq<T>, k: nat)
    requires Order(less) && IsHeap(less, h) && k < |h|
    ensures !less(h[k], h[0])
    decreases k
  {
    if k > 0 {
      assert InPlace(less, h, k);
      FrontIsLeast(less, h, Parent(k));
      assert !less(h[Parent(k)], h[0]);
    } else {
      Irreflexive(less, h[0]);
    }
  }

  function Swap<T>(h: seq<T>, i: nat, j: nat): (s: seq<T>)
    requires i < |h| && j < |h|
    ensures multiset(s) == multiset(h)
  {
    SwapKeeps(h, i, j);
    h[i := h[j]][j := h[i]]
  }

  lemma SwapKeeps<T>(h: seq<T>, i: nat, j: nat)
    requires i < |h| && j < |h|
    ensures multiset(h[i := h[j]][j := h[i]]) == multiset(h)
  {
  }

  /** Element `j` may be too small; everything else is in place, even with `j` left out. */
  ghost predicate UpReady<T>(less: (T, T) -> bool, h: seq<T>, j: nat)
    requires j < |h|
  {
    && (forall k {:trigger InPlace(less, h, k)} :: 0 < k < |h| && k != j ==> InPlace(less, h, k))
    && (forall k {:trigger h[k]} :: 0 < k < |h| && Parent(k) == j && j > 0 ==> !less(h[k], h[Parent(j)]))
  }

  /** Sift up. */
  method Up<T(!new)>(less: (T, T) -> bool, h: seq<T>, start: nat) returns (s: seq<T>)
    requires Order(less) && start < |h| && UpReady(less, h, start)
    ensures IsHeap(less, s) && multiset(s) == multiset(h)
  {
    s := h;
    var j: nat := start;
    while j > 0 && less(s[j], s[Parent(j)])
      invariant |s| == |h| && j < |s| && UpReady(less, s, j) && multiset(s) == multiset(h)
      decreases j
    {
      UpStep(less, s, j);
      s := Swap(s, Parent(j), j);
      j := Parent(j);
    }
  }

  lemma UpStep<T(!new)>(less: (T, T) -> bool, h: seq<T>, j: nat)
    requires Order(less) && 0 < j < |h| && UpReady(less, h, j) && less(h[j], h[Parent(j)])
    ensures UpReady(less, Swap(h, Parent(j), j), Parent(j))
  {
    var p := Parent(j);
    var s := Swap(h, p, j);
    forall k | 0 < k < |s| && k != p
      ensures InPlace(less, s, k)
    {
      if k == j {
      } else if Parent(k) == j {
        assert !less(h[k], h[p]);
      } else {
        assert InPlace(less, h, k);
        if Parent(k) == p {
          assert !less(h[k], h[p]) && !less(h[p], h[j]);
        }
      }
    }
    if p > 0 {
      forall k | 0 < k < |s| && Parent(k) == p
        ensures !less(s[k], s[Parent(p)])
      {
        assert InPlace(less, h, p);
        if k != j {
          assert InPlace(less, h, k);
          assert !less(h[k], h[p]) && !less(h[p], h[Parent(p)]);
        }
      }
    }
  }

  /** Element `i` may be too large for its children; above `lo` nothing else is out of place. */
  ghost predicate DownReady<T>(less: (T, T) -> bool, h: seq<T>, lo: nat, i: nat)
    requires lo <= i < |h|
  {
    && (forall k {:trigger InPlace(less, h, k)} :: 0 < k < |h| && Parent(k) >= lo && Parent(k) != i ==>
        InPlace(less, h, k))
    && (i > lo ==> Parent(i) >= lo)
    && (forall k {:trigger h[k]} :: 0 < k < |h| && Parent(k) == i && i > lo ==> !less(h[k], h[Parent(i)]))
  }

  /** Sift down. */
  method Down<T(!new)>(less: (T, T) -> bool, h: seq<T>, lo: nat) returns (s: seq<T>)
    requires Order(less) && lo < |h| && HeapFrom(less, h, lo + 1)
    ensures HeapFrom(less, s, lo) && multiset(s) == multiset(h) && |s| == |h|
  {
    s := h;
    var i := lo;
    while 2 * i + 1 < |s|
      invariant |s| == |h| && lo <= i < |s| && DownReady(less, s, lo, i) && multiset(s) == multiset(h)
      decreases |s| - i
    {
      var j := 2 * i + 1;
      if j + 1 < |s| && less(s[j + 1], s[j]) {
        j := j + 1;
      }
      Irreflexive(less, s[j]);
      if !less(s[j], s[i]) {
        Settled(less, s, lo, i, j);
        return;
      }
      DownStep(less, s, lo, i, j);
      s := Swap(s, i, j);
      i := j;
    }
    forall k | 0 < k < |s| && Parent(k) >= lo
      ensures InPlace(less, s, k)
    {
      assert Parent(k) != i;
    }
  }

  /** `j` is the smaller child of `i`. */
  ghost predicate SmallerChild<T>(less: (T, T) -> bool, h: seq<T>, i: nat, j: nat) {
    && 0 < j < |h| && Parent(j) == i && i < |h|
    && forall k {:trigger h[k]} :: 0 < k < |h| && Parent(k) == i ==> !less(h[k], h[j])
  }

  lemma Settled<T(!new)>(less: (T, T) -> bool, h: seq<T>, lo: nat, i: nat, j: nat)
    requires Order(less) && lo <= i < |h| && DownReady(less, h, lo, i) && SmallerChild(less, h, i, j)
    requires !less(h[j], h[i])
    ensures HeapFrom(less, h, lo)
  {
    forall k | 0 < k < |h| && Parent(k) >= lo
      ensures InPlace(less, h, k)
    {
      if Parent(k) == i {
        assert !less(h[k], h[j]);
      }
    }
  }

  lemma DownStep<T(!new)>(less: (T, T) -> bool, h: seq<T>, lo: nat, i: nat, j: nat)
    requires Order(less) && lo <= i < |h| && DownReady(less, h, lo, i) && SmallerChild(less, h, i, j)
    requires less(h[j], h[i])
    ensures DownReady(less, Swap(h, i, j), lo, j)
  {
    var s := Swap(h, i, j);
    forall k | 0 < k < |s| && Parent(k) >= lo && Parent(k) != j
      ensures InPlace(less, s, k)
    {
      if k == j {
      } else if k == i {
        assert !less(h[j], h[Parent(i)]);
      } else if Parent(k) == i {
        assert !less(h[k], h[j]);
      } else {
        assert InPlace(less, h, k);
      }
    }
    forall k | 0 < k < |s| && Parent(k) == j
      ensures !less(s[k], s[Parent(j)])
    {
      assert InPlace(less, h, k);
    }
  }

  /** `heap.Init`. */
  method Init<T(!new)>(less: (T, T) -> bool, h: seq<T>) returns (s: seq<T>)
    requires Order(less)
    ensures IsHeap(less, s) && multiset(s) == multiset(h)
  {
    s := h;
    var i: nat := |h| / 2;
    while i > 0
      invariant |s| == |h| && i <= |h| / 2 && multiset(s) == multiset(h)
      invariant HeapFrom(less, s, i)
    {
      i := i - 1;
      s := Down(less, s, i);
    }
  }

  /** `heap.Push`. */
  method Push<T(!new)>(less: (T, T) -> bool, h: seq<T>, x: T) returns (s: seq<T>)
    requires Order(less) && IsHeap(less, h)
    ensures IsHeap(less, s) && multiset(s) == multiset(h) + multiset{x}
  {
    var longer := h + [x];
    forall k | 0 < k < |longer| && k != |h|
      ensures InPlace(less, longer, k)
    {
      assert InPlace(less, h, k);
    }
    s := Up(less, longer, |h|);
  }

  /** With the last element moved to the front, everything below the front is in place. */
  lemma PopReady<T(!new)>(less: (T, T) -> bool, h: seq<T>, rest: seq<T>)
    requires IsHeap(less, h) && |h| > 1 && rest == h[..|h| - 1][0 := h[|h| - 1]]
    ensures HeapFrom(less, rest, 1)
  {
    forall k | 0 < k < |rest| && Parent(k) >= 1
      ensures InPlace(less, rest, k)
    {
      assert InPlace(less, h, k);
      assert rest[k] == h[k] && rest[Parent(k)] == h[Parent(k)];
    }
  }

  lemma PopLoses<T>(h: seq<T>, rest: seq<T>)
    requires |h| > 1 && rest == h[..|h| - 1][0 := h[|h| - 1]]
    ensures multiset(rest) == multiset(h) - multiset{h[0]}
  {
    var n := |h| - 1;
    assert h == [h[0]] + h[1..n] + [h[n]];
    assert rest == [h[n]] + h[1..n];
  }

  /** `heap.Pop`: the least element. */
  method Pop<T(!new)>(less: (T, T) -> bool, h: seq<T>) returns (x: T, s: seq<T>)
    requires Order(less) && IsHeap(less, h) && h != []
    ensures x == h[0] && IsHeap(less, s) && multiset(s) == multiset(h) - multiset{x}
    ensures forall k :: 0 <= k < |h| ==> !less(h[k], x)
  {
    hide DownReady;
    x := h[0];
    forall k | 0 <= k < |h|
      ensures !less(h[k], h[0])
    {
      FrontIsLeast(less, h, k);
    }
    var n := |h| - 1;
    if n == 0 {
      assert h == [x];
      return x, [];
    }
    var rest := h[..n][0 := h[n]];
    PopReady(less, h, rest);
    PopLoses(h, rest);
    s := Down(less, rest, 0);
  }

  /** `heap.Remove`: drop the element at position `i`. */
  method Remove<T(!new)>(less: (T, T) -> bool, h: seq<T>, i: nat) returns (s: seq<T>)
    requires Order(less) && i < |h|
    ensures IsHeap(less, s) && multiset(s) == multiset(h) - multiset{h[i]}
  {
    assert h == h[..i] + [h[i]] + h[i + 1..];
    s := Init(less, h[..i] + h[i + 1..]);
  }
}
