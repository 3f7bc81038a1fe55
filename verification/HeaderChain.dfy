/** The header chain (core/headerchain.go): headers and total difficulties by hash, the
    number-to-hash index of the canonical chain, and the current header. */
module HeaderChain {
  import opened Types

  datatype Header = Header(hash: Hash, number: nat, parent: Hash, difficulty: nat)

  type Headers = map<Hash, Header>
  type Index = map<nat, Hash>

  /** Stored headers form a tree rooted at genesis: every other header's parent is stored and one
      number lower. Hash zero means "absent". */
  ghost predicate Tree(headers: Headers, genesis: Hash) {
    && ZERO_HASH !in headers
    && genesis in headers && headers[genesis].number == 0
    && forall h {:trigger NodeOk(headers, genesis, h)} :: h in headers ==> NodeOk(headers, genesis, h)
  }

  ghost predicate NodeOk(headers: Headers, genesis: Hash, h: Hash)
    requires h in headers
  {
    headers[h].hash == h && (h == genesis || Attached(headers, headers[h]))
  }

  ghost predicate Attached(headers: Headers, x: Header) {
    x.parent in headers && x.number == headers[x.parent].number + 1
  }

  /** The header `k` parent links above `h`. */
  function Up(headers: Headers, h: Hash, k: nat): Option<Hash>
    decreases k
  {
    if k == 0 then Some(h)
    else if h in headers then Up(headers, headers[h].parent, k - 1)
    else None
  }

  lemma {:induction false} UpStaysInTree(headers: Headers, genesis: Hash, h: Hash, k: nat)
    requires Tree(headers, genesis) && h in headers && k <= headers[h].number
    ensures var u := Up(headers, h, k);
            u.Some? && u.value in headers && headers[u.value].number == headers[h].number - k
    decreases k
  {
    if k > 0 {
      assert NodeOk(headers, genesis, h);
      UpStaysInTree(headers, genesis, headers[h].parent, k - 1);
    }
  }

  lemma {:induction false} UpStep(headers: Headers, h: Hash, k: nat)
    ensures Up(headers, h, k).Some? && Up(headers, h, k).value in headers ==>
              Up(headers, h, k + 1) == Some(headers[Up(headers, h, k).value].parent)
    decreases k
  {
    if k > 0 && h in headers {
      UpStep(headers, headers[h].parent, k - 1);
    }
  }

  /******* The number index *******/

  /** The entry at `n` holds a stored header of number `n` whose parent is the entry below. */
  ghost predicate EntryOk(headers: Headers, index: Index, n: nat) {
    && n in index && index[n] in headers && headers[index[n]].number == n
    && (n > 0 ==> n - 1 in index && headers[index[n]].parent == index[n - 1])
  }

  /** The index is exactly the path from genesis to `top`. */
  ghost predicate Canonical(headers: Headers, index: Index, top: Hash) {
    && top in headers && headers[top].number in index && index[headers[top].number] == top
    && (forall n :: n in index ==> n <= headers[top].number)
    && (forall n :: 0 <= n <= headers[top].number ==> EntryOk(headers, index, n))
  }

  /** Said through parent links alone: entry `n` is the ancestor of `top` at number `n`, and there is
      no entry above `top`. */
  lemma {:induction false} CanonicalIsAncestorPath(headers: Headers, index: Index, top: Hash, n: nat)
    requires Canonical(headers, index, top) && n <= headers[top].number
    ensures n in index && Up(headers, top, headers[top].number - n) == Some(index[n])
    decreases headers[top].number - n
  {
    if n < headers[top].number {
      CanonicalIsAncestorPath(headers, index, top, n + 1);
      assert EntryOk(headers, index, n + 1);
      UpStep(headers, top, headers[top].number - (n + 1));
    } else {
      assert EntryOk(headers, index, n);
    }
  }

  /** From a canonical header, `k` parent links lead to the entry `k` below. */
  lemma {:induction false} UpFollowsIndex(headers: Headers, index: Index, top: Hash, n: nat, k: nat)
    requires Canonical(headers, index, top) && k <= n <= headers[top].number
    ensures n in index && n - k in index && Up(headers, index[n], k) == Some(index[n - k])
    decreases k
  {
    assert EntryOk(headers, index, n);
    if k > 0 {
      UpFollowsIndex(headers, index, top, n - 1, k - 1);
    }
  }

  /******* Total difficulty *******/

  ghost predicate TdOk(headers: Headers, td: map<Hash, nat>, genesis: Hash) {
    && td.Keys == headers.Keys
    && genesis in headers && td[genesis] == headers[genesis].difficulty
    && forall h {:trigger TdAt(headers, td, h)} :: h in headers && h != genesis ==> TdAt(headers, td, h)
  }

  ghost predicate TdAt(headers: Headers, td: map<Hash, nat>, h: Hash)
    requires h in headers && h in td
  {
    headers[h].parent in td && td[h] == td[headers[h].parent] + headers[h].difficulty
  }

  /** The difficulties along the path to genesis, added up. */
  ghost function PathDifficulty(headers: Headers, genesis: Hash, h: Hash): nat
    requires Tree(headers, genesis) && h in headers
    decreases headers[h].number
  {
    assert NodeOk(headers, genesis, h);
    headers[h].difficulty + if h == genesis then 0 else PathDifficulty(headers, genesis, headers[h].parent)
  }

  lemma {:induction false} TdIsPathDifficulty(headers: Headers, td: map<Hash, nat>, genesis: Hash, h: Hash)
    requires Tree(headers, genesis) && TdOk(headers, td, genesis) && h in headers
    ensures td[h] == PathDifficulty(headers, genesis, h)
    decreases headers[h].number
  {
    assert NodeOk(headers, genesis, h);
    if h != genesis {
      assert TdAt(headers, td, h);
      TdIsPathDifficulty(headers, td, genesis, headers[h].parent);
    }
  }

  /******* Re-routing *******/

  /** Delete every index entry above `number`: read upwards until the first absent one. */
  method DeleteAbove(headers: Headers, index: Index, ghost top: Hash, number: nat) returns (index': Index)
    requires Canonical(headers, index, top)
    ensures forall n :: n in index' <==> n in index && n <= number
    ensures forall n :: n in index' ==> index'[n] == index[n]
  {
    var batch: set<nat> := {};
    var i := number + 1;
    while i in index
      invariant i > number && forall n :: n in batch <==> number < n < i
      invariant forall n :: number < n < i ==> n in index
      decreases headers[top].number + 1 - i
    {
      assert i <= headers[top].number;
      batch := batch + {i};
      i := i + 1;
    }
    index' := index - batch;
    assert i <= headers[top].number ==> EntryOk(headers, index, i);
  }

  /** The part of the index the loop below has already rewritten: a linked path from just above `low`
      up to `high`. */
  ghost predicate Rewritten(headers: Headers, index: Index, low: nat, high: nat) {
    forall n: nat :: low < n <= high ==> RewrittenAt(headers, index, low, n)
  }

  ghost predicate RewrittenAt(headers: Headers, index: Index, low: nat, n: nat) {
    && n in index && index[n] in headers && headers[index[n]].number == n
    && (n > low + 1 ==> n - 1 in index && headers[index[n]].parent == index[n - 1])
  }

  ghost predicate SameAt(index: Index, full: Index, n: nat) {
    (n in index <==> n in full) && (n in index ==> index[n] == full[n])
  }

  lemma ParentStep(headers: Headers, genesis: Hash, h: Hash)
    requires Tree(headers, genesis) && h in headers && headers[h].number > 0
    ensures var p := headers[h].parent; p in headers && p != ZERO_HASH && headers[p].number == headers[h].number - 1
  {
    assert NodeOk(headers, genesis, h);
  }

  lemma RootIsShared(headers: Headers, genesis: Hash, index: Index, top: Hash, h: Hash)
    requires Tree(headers, genesis) && Canonical(headers, index, top) && h in headers && headers[h].number == 0
    ensures 0 in index && index[0] == h
  {
    assert EntryOk(headers, index, 0);
    assert NodeOk(headers, genesis, h) && NodeOk(headers, genesis, index[0]);
  }

  /** Overwrite stale entries, walking down the parents of `head` until the index already agrees. It
      terminates because the index agrees at genesis at the latest. */
  method Reroute(headers: Headers, genesis: Hash, index: Index, ghost top: Hash, ghost full: Index, head: Hash)
    returns (index': Index)
    requires Tree(headers, genesis) && Canonical(headers, full, top) && head in headers
    requires forall n :: n in index <==> n in full && n <= headers[head].number + 1
    requires forall n :: n in index ==> index[n] == full[n]
    ensures forall n :: 0 <= n <= headers[head].number ==> EntryOk(headers, index', n)
    ensures headers[head].number in index' && index'[headers[head].number] == head
    ensures forall n :: n in index' ==> n <= headers[head].number + 1
  {
    ghost var high := headers[head].number;
    var headHash, headNumber := head, headers[head].number;
    index' := index;
    while !(headNumber in index' && index'[headNumber] == headHash)
      invariant 0 <= headNumber <= high && headHash in headers && headers[headHash].number == headNumber
      invariant Rewritten(headers, index', headNumber, high)
      invariant headNumber < high ==>
                  && high in index' && index'[high] == head
                  && headNumber + 1 in index' && index'[headNumber + 1] in headers
                  && headers[index'[headNumber + 1]].parent == headHash
      invariant headNumber == high ==> headHash == head
      invariant forall n :: n in index' ==> n <= high + 1
      invariant forall n :: 0 <= n <= headNumber ==> SameAt(index', full, n)
      decreases headNumber
    {
      assert SameAt(index', full, headNumber);
      if headNumber == 0 {
        RootIsShared(headers, genesis, full, top, headHash);
        assert false;
      }
      ParentStep(headers, genesis, headHash);
      index' := RerouteEntry(headers, index', full, headHash, high);
      headHash := headers[headHash].parent;
      headNumber := headNumber - 1;
    }
    forall n | 0 <= n <= high
      ensures EntryOk(headers, index', n)
    {
      assert SameAt(index', full, headNumber);
      if n <= headNumber {
        assert SameAt(index', full, n) && (n > 0 ==> SameAt(index', full, n - 1));
        assert EntryOk(headers, full, n);
      } else {
        assert RewrittenAt(headers, index', headNumber, n);
      }
    }
  }

  /** One iteration: the entry at the head's own number now holds the head. */
  method RerouteEntry(headers: Headers, index: Index, ghost full: Index, headHash: Hash, ghost high: nat)
    returns (index': Index)
    requires headHash in headers && 0 < headers[headHash].number <= high
    requires var n := headers[headHash].number;
             && Rewritten(headers, index, n, high)
             && (n < high ==> n + 1 in index && index[n + 1] in headers && headers[index[n + 1]].parent == headHash)
             && forall m :: 0 <= m <= n ==> SameAt(index, full, m)
    ensures index' == index[headers[headHash].number := headHash]
    ensures Rewritten(headers, index', headers[headHash].number - 1, high)
    ensures forall m :: 0 <= m < headers[headHash].number ==> SameAt(index', full, m)
  {
    index' := index[headers[headHash].number := headHash];
    ghost var low := headers[headHash].number - 1;
    forall m: nat | low < m <= high
      ensures RewrittenAt(headers, index', low, m)
    {
      assert m > low + 1 ==> RewrittenAt(headers, index, low + 1, m);
    }
    forall m | 0 <= m < headers[headHash].number
      ensures SameAt(index', full, m)
    {
      assert SameAt(index, full, m);
    }
  }

  /******* The chain object *******/

  datatype WriteStatus = NonStatTy | CanonStatTy | SideStatTy

  class HeaderChain {
    const genesis: Hash
    var headers: Headers
    var td: map<Hash, nat>
    var index: Index
    var currentHeaderHash: Hash

    constructor (g: Header)
      requires g.number == 0 && g.hash != ZERO_HASH
      ensures Valid() && genesis == g.hash && headers == map[g.hash := g] && currentHeaderHash == g.hash
    {
      genesis, currentHeaderHash := g.hash, g.hash;
      headers, td, index := map[g.hash := g], map[g.hash := g.difficulty], map[0 := g.hash];
    }

    /** What every header write keeps: the index is exactly the current header's path, total
        difficulties add up, and no stored header is heavier than the current one. */
    ghost predicate Valid()
      reads this
    {
      && Tree(headers, genesis)
      && TdOk(headers, td, genesis)
      && Canonical(headers, index, currentHeaderHash)
      && forall h :: h in td ==> td[h] <= td[currentHeaderHash]
    }

    /** `WriteHeader` and `WriteTangerineHeader`. `coin` is the tie-break. The caller supplies a header
        whose number follows its parent's, and no two headers with one hash. */
    method WriteHeader(header: Header, coin: bool) returns (status: WriteStatus)
      requires Valid() && header.hash != ZERO_HASH
      requires header.parent in headers ==> header.number == headers[header.parent].number + 1
      requires header.hash in headers ==> headers[header.hash] == header
      modifies this
      ensures Valid()
      ensures status.NonStatTy? <==> header.parent !in old(headers)
      ensures status.NonStatTy? ==>
                headers == old(headers) && td == old(td) && index == old(index) &&
                currentHeaderHash == old(currentHeaderHash)
      ensures !status.NonStatTy? ==>
                && headers == old(headers)[header.hash := header]
                && td == old(td)[header.hash := header.difficulty + old(td)[header.parent]]
      ensures status.CanonStatTy? ==> currentHeaderHash == header.hash
      ensures status.SideStatTy? ==> index == old(index) && currentHeaderHash == old(currentHeaderHash)
      ensures !status.NonStatTy? ==>
                var local, extern := old(td[currentHeaderHash]), td[header.hash];
                status.CanonStatTy? <==> extern > local || (extern == local && coin)
    {
      if header.parent !in td {
        return NonStatTy;
      }
      var localTd, externTd := td[currentHeaderHash], header.difficulty + td[header.parent];
      hide Tree, Canonical, TdOk;
      AddHeader(headers, td, genesis, index, currentHeaderHash, header);
      td := td[header.hash := externTd];
      headers := headers[header.hash := header];
      if externTd > localTd || (externTd == localTd && coin) {
        var kept := DeleteAbove(headers, index, currentHeaderHash, header.number);
        var routed := Reroute(headers, genesis, kept, currentHeaderHash, index, header.parent);
        index := routed[header.number := header.hash];
        HeadOnTop(headers, routed, header);
        currentHeaderHash := header.hash;
        status := CanonStatTy;
      } else {
        status := SideStatTy;
      }
    }

    /** `GetAncestor`, with `cached` the hashes in the header cache, which answers whatever number is asked for.
        The result is not the zero hash exactly if the walk reaches the ancestor or a canonical header within the
        budget, or strays; and it is the ancestor that parent links give exactly if the walk does not stray. It
        strays when it comes to the zero hash at a number without an entry, which then "matches". */
    method GetAncestor(cached: set<Hash>, hash: Hash, number: nat, ancestor: nat, maxNonCanonical: nat)
      returns (h: Hash, n: nat, budget: nat)
      requires Valid() && cached <= headers.Keys
      ensures var walk := Walk(headers, index, cached, hash, number);
              && (h != ZERO_HASH <==>
                    && ancestor <= number
                    && (if ancestor == 1 then walk.Found(hash, number) && headers[hash].parent != ZERO_HASH
                        else walk.Arrives(ancestor, maxNonCanonical) || walk.Strays(ancestor, maxNonCanonical)))
              && (h != ZERO_HASH && Up(headers, hash, ancestor) != Some(h) <==>
                    1 < ancestor <= number && walk.Strays(ancestor, maxNonCanonical))
              && (1 < ancestor <= number && walk.Strays(ancestor, maxNonCanonical) ==> h == index[number - ancestor])
      ensures h != ZERO_HASH ==> n == number - ancestor
      ensures budget <= maxNonCanonical && (ancestor <= 1 || ancestor > number ==> budget == maxNonCanonical)
      ensures 1 < ancestor <= number ==>
                Walk(headers, index, cached, hash, number).Uses(ancestor, maxNonCanonical - budget, budget, h)
    {
      budget := maxNonCanonical;
      if ancestor > number {
        return ZERO_HASH, 0, budget;
      }
      if ancestor == 1 {
        if hash in cached || StoredAt(headers, hash, number) {
          assert Up(headers, hash, 1) == Up(headers, headers[hash].parent, 0);
          return headers[hash].parent, number - 1, budget;
        }
        return ZERO_HASH, 0, budget;
      }
      h, n, budget := SearchAncestor(cached, hash, number, ancestor, maxNonCanonical);
    }

    method SearchAncestor(cached: set<Hash>, hash: Hash, number: nat, ancestor: nat, maxNonCanonical: nat)
      returns (h: Hash, n: nat, budget: nat)
      requires Valid() && cached <= headers.Keys && ancestor <= number
      ensures var walk := Walk(headers, index, cached, hash, number);
              && (h != ZERO_HASH <==> walk.Arrives(ancestor, maxNonCanonical) || walk.Strays(ancestor, maxNonCanonical))
              && (h != ZERO_HASH && Up(headers, hash, ancestor) != Some(h) <==> walk.Strays(ancestor, maxNonCanonical))
              && (walk.Strays(ancestor, maxNonCanonical) ==> h == index[number - ancestor])
      ensures h != ZERO_HASH ==> n == number - ancestor
      ensures budget <= maxNonCanonical && (ancestor == 0 ==> budget == maxNonCanonical)
      ensures Walk(headers, index, cached, hash, number).Uses(ancestor, maxNonCanonical - budget, budget, h)
    {
      hide Up, Tree, Canonical, TdOk;
      budget := maxNonCanonical;
      var left: nat := ancestor;
      h, n := hash, number;
      ghost var j := 0;
      ghost var walk := Walk(headers, index, cached, hash, number);
      UpZero(headers, hash);
      ZeroNotStored(headers, genesis);
      ZeroNotIndexed(headers, genesis, index, currentHeaderHash);
      while left != 0
        invariant j + left == ancestor && j + budget == maxNonCanonical && n == number - j
        invariant Up(headers, hash, j) == Some(h) && walk.Gets(j)
        invariant forall i :: 0 <= i < j ==> !walk.MeetsIndex(i)
      {
        if ReadCanonicalHash(index, n) == h {
          if h != ZERO_HASH {
            IndexEntry(headers, genesis, index, currentHeaderHash, n);
            UpFollowsIndex(headers, index, currentHeaderHash, n, left);
            UpCompose(headers, hash, j, left);
            IndexEntry(headers, genesis, index, currentHeaderHash, n - left);
            assert walk.MeetsIndex(j) && walk.ArrivesAt(ancestor, j);
            NeverBoth(walk, genesis, currentHeaderHash, ancestor, j, maxNonCanonical);
          } else {
            StrayingEnds(walk, ancestor, j, maxNonCanonical);
          }
          h, n := ReadCanonicalHash(index, n - left), n - left;
          return;
        }
        assert !walk.MeetsIndex(j);
        if budget == 0 {
          StoppedShort(walk, ancestor, j, maxNonCanonical);
          return ZERO_HASH, 0, budget;
        }
        budget := budget - 1;
        left := left - 1;
        if !(h in cached || StoredAt(headers, h, n)) {
          assert !walk.Found(h, number - j);
          StoppedShort(walk, ancestor, j, maxNonCanonical);
          return ZERO_HASH, 0, budget;
        }
        UpStep(headers, hash, j);
        h := headers[h].parent;
        n := n - 1;
        j := j + 1;
      }
      ReachedEnd(walk, ancestor, maxNonCanonical);
    }
  }

  /** A start and number for GetAncestor with what it reads. */
  datatype Walk = Walk(headers: Headers, index: Index, cached: set<Hash>, hash: Hash, number: nat) {
    /** GetHeader finds the header, from the cache or under its own number. */
    predicate Found(h: Hash, n: nat) {
      h in headers && (h in cached || headers[h].number == n)
    }

    /** The first `j` headers on the way up are found. */
    ghost predicate Gets(j: nat) {
      j <= number && forall i {:trigger Up(headers, hash, i)} :: 0 <= i < j ==>
        Up(headers, hash, i).Some? && Found(Up(headers, hash, i).value, number - i)
    }

    /** After `j` parent links the walk stands on a canonical header. */
    ghost predicate MeetsIndex(j: nat) {
      && j <= number && Up(headers, hash, j).Some?
      && number - j in index && index[number - j] == Up(headers, hash, j).value
    }

    /** The walk gets to a header at distance `j`, and that is the ancestor or canonical. */
    ghost predicate ArrivesAt(ancestor: nat, j: nat) {
      && Gets(j) && j <= ancestor
      && (MeetsIndex(j) || (j == ancestor && Up(headers, hash, j).Some? && Up(headers, hash, j).value != ZERO_HASH))
    }

    ghost predicate Arrives(ancestor: nat, budget: nat) {
      exists j :: 0 <= j <= budget && ArrivesAt(ancestor, j)
    }

    /** The walk gets to the zero hash at distance `j`, at a number without an entry, and there is an entry where
        the ancestor should be. */
    ghost predicate StraysAt(ancestor: nat, j: nat) {
      && Gets(j) && j < ancestor <= number && Up(headers, hash, j) == Some(ZERO_HASH)
      && number - j !in index && number - ancestor in index
    }

    ghost predicate Strays(ancestor: nat, budget: nat) {
      exists j :: 0 <= j <= budget && StraysAt(ancestor, j)
    }

    /** `used` headers were checked for the result `h`, and `left` more could have been: the walk arrived or strayed
        at that distance and met no canonical header before, or it ended there because nothing is left to check, it
        stands on the zero hash, or the last header was not found. */
    ghost predicate Uses(ancestor: nat, used: nat, left: nat, h: Hash) {
      && (forall i :: 0 <= i < used ==> !MeetsIndex(i))
      && if h != ZERO_HASH then ArrivesAt(ancestor, used) || StraysAt(ancestor, used)
         else
           || left == 0 || Up(headers, hash, used) == Some(ZERO_HASH)
           || (used > 0 && Gets(used - 1) && Up(headers, hash, used - 1).Some? &&
               !Found(Up(headers, hash, used - 1).value, number - (used - 1)))
    }
  }

  /** A walk from a header under its own number, or from an unknown hash, never strays. */
  lemma OwnNumberNeverStrays(walk: Walk, genesis: Hash, ancestor: nat, budget: nat)
    requires Tree(walk.headers, genesis) && walk.hash != ZERO_HASH
    requires walk.hash in walk.headers ==> walk.headers[walk.hash].number == walk.number
    ensures !walk.Strays(ancestor, budget)
  {
    forall j: nat
      ensures !walk.StraysAt(ancestor, j)
    {
      if walk.hash in walk.headers && j <= walk.number {
        UpStaysInTree(walk.headers, genesis, walk.hash, j);
      } else {
        UpFromNowhere(walk.headers, walk.hash, j);
      }
    }
  }

  /** From the header at `j` on, the walk can neither go on nor have strayed before. */
  lemma StoppedShort(walk: Walk, ancestor: nat, j: nat, budget: nat)
    requires walk.Gets(j) && j < ancestor && j <= budget && ZERO_HASH !in walk.headers
    requires forall i :: 0 <= i <= j ==> !walk.MeetsIndex(i)
    requires Up(walk.headers, walk.hash, j).Some?
    requires !(Up(walk.headers, walk.hash, j) == Some(ZERO_HASH) && walk.number - j !in walk.index)
    requires j == budget || !walk.Found(Up(walk.headers, walk.hash, j).value, walk.number - j)
    ensures !walk.Arrives(ancestor, budget) && !walk.Strays(ancestor, budget)
  {
    hide Up;
    forall k: nat | k <= budget
      ensures !walk.ArrivesAt(ancestor, k) && !walk.StraysAt(ancestor, k)
    {
      if k < j {
        assert walk.Found(Up(walk.headers, walk.hash, k).value, walk.number - k);
      }
    }
  }

  lemma NeverBoth(walk: Walk, genesis: Hash, top: Hash, ancestor: nat, j: nat, budget: nat)
    requires Tree(walk.headers, genesis) && Canonical(walk.headers, walk.index, top)
    requires walk.ArrivesAt(ancestor, j) && walk.MeetsIndex(j)
    ensures !walk.Strays(ancestor, budget)
  {
    hide Canonical;
    var n := walk.number - j;
    IndexEntry(walk.headers, genesis, walk.index, top, n);
    var x := walk.index[n];
    forall k: nat
      ensures !walk.StraysAt(ancestor, k)
    {
      if walk.StraysAt(ancestor, k) {
        if k < j {
          assert false;
        } else {
          UpCompose(walk.headers, walk.hash, j, k - j);
          UpStaysInTree(walk.headers, genesis, x, k - j);
          assert false;
        }
      }
    }
  }

  lemma StrayingEnds(walk: Walk, ancestor: nat, j: nat, budget: nat)
    requires walk.Gets(j) && j < ancestor <= walk.number && j <= budget && ZERO_HASH !in walk.headers
    requires Up(walk.headers, walk.hash, j) == Some(ZERO_HASH) && walk.number - j !in walk.index
    requires forall i :: 0 <= i < j ==> !walk.MeetsIndex(i)
    ensures walk.Strays(ancestor, budget) <==> walk.number - ancestor in walk.index
    ensures !walk.Arrives(ancestor, budget) && Up(walk.headers, walk.hash, ancestor).None?
  {
    UpCompose(walk.headers, walk.hash, j, ancestor - j);
    UpFromNowhere(walk.headers, ZERO_HASH, ancestor - j);
    assert walk.number - ancestor in walk.index ==> walk.StraysAt(ancestor, j);
    forall k: nat | k <= budget
      ensures !walk.ArrivesAt(ancestor, k)
    {
      assert k < j ==> walk.Found(Up(walk.headers, walk.hash, k).value, walk.number - k);
    }
  }

  lemma ReachedEnd(walk: Walk, ancestor: nat, budget: nat)
    requires walk.Gets(ancestor) && ancestor <= budget && Up(walk.headers, walk.hash, ancestor).Some?
    requires ZERO_HASH !in walk.headers && forall i :: 0 <= i < ancestor ==> !walk.MeetsIndex(i)
    requires forall n :: n in walk.index ==> walk.index[n] != ZERO_HASH
    ensures !walk.Strays(ancestor, budget)
    ensures walk.Arrives(ancestor, budget) <==> Up(walk.headers, walk.hash, ancestor).value != ZERO_HASH
  {
    hide Up;
    forall k: nat | k < ancestor
      ensures !walk.StraysAt(ancestor, k) && !walk.ArrivesAt(ancestor, k)
    {
      assert walk.Found(Up(walk.headers, walk.hash, k).value, walk.number - k);
    }
    assert Up(walk.headers, walk.hash, ancestor).value != ZERO_HASH ==> walk.ArrivesAt(ancestor, ancestor);
  }

  /** An instance: two above a chain of genesis alone, the zero hash has genesis as "ancestor". */
  method ZeroHashHasAnAncestor(g: Header) returns (h: Hash)
    requires g.number == 0 && g.hash != ZERO_HASH
    ensures h == g.hash
  {
    var chain := new HeaderChain(g);
    ghost var walk := Walk(chain.headers, chain.index, {}, ZERO_HASH, 2);
    assert EntryOk(chain.headers, chain.index, 0);
    assert walk.StraysAt(2, 0);
    var n, budget;
    h, n, budget := chain.GetAncestor({}, ZERO_HASH, 2, 2, 0);
  }

  /** Another: genesis, cached, under number 5 is its own fifth ancestor. */
  method GenesisIsItsOwnAncestor(g: Header) returns (h: Hash)
    requires g.number == 0 && g.hash != ZERO_HASH && g.parent == ZERO_HASH
    ensures h == g.hash
  {
    var chain := new HeaderChain(g);
    ghost var walk := Walk(chain.headers, chain.index, {g.hash}, g.hash, 5);
    assert EntryOk(chain.headers, chain.index, 0);
    assert Up(chain.headers, g.hash, 1) == Up(chain.headers, ZERO_HASH, 0);
    assert walk.StraysAt(5, 1);
    var n, budget;
    h, n, budget := chain.GetAncestor({g.hash}, g.hash, 5, 5, 1);
  }

  /** The database finds a header only under its own number. */
  predicate StoredAt(headers: Headers, hash: Hash, number: nat) {
    hash in headers && headers[hash].number == number
  }

  /** The database returns the zero hash for a number without an entry. */
  function ReadCanonicalHash(index: Index, n: nat): Hash {
    if n in index then index[n] else ZERO_HASH
  }

  lemma ZeroNotStored(headers: Headers, genesis: Hash)
    requires Tree(headers, genesis)
    ensures ZERO_HASH !in headers
  {
  }

  lemma ZeroNotIndexed(headers: Headers, genesis: Hash, index: Index, top: Hash)
    requires Tree(headers, genesis) && Canonical(headers, index, top)
    ensures forall n :: n in index ==> index[n] != ZERO_HASH
  {
    forall n | n in index
      ensures index[n] != ZERO_HASH
    {
      IndexEntry(headers, genesis, index, top, n);
    }
  }

  /** No parent links lead anywhere from a hash that is not stored. */
  lemma UpFromNowhere(headers: Headers, h: Hash, k: nat)
    ensures h !in headers && k > 0 ==> Up(headers, h, k).None?
  {
  }

  lemma UpZero(headers: Headers, h: Hash)
    ensures Up(headers, h, 0) == Some(h)
  {
  }

  lemma IndexEntry(headers: Headers, genesis: Hash, index: Index, top: Hash, n: nat)
    requires Tree(headers, genesis) && Canonical(headers, index, top) && n in index
    ensures n <= headers[top].number && index[n] in headers && index[n] != ZERO_HASH && headers[index[n]].number == n
  {
    assert EntryOk(headers, index, n);
  }

  lemma {:induction false} UpCompose(headers: Headers, h: Hash, j: nat, k: nat)
    ensures Up(headers, h, j).Some? ==> Up(headers, h, j + k) == Up(headers, Up(headers, h, j).value, k)
    decreases j
  {
    if j > 0 && h in headers {
      UpCompose(headers, headers[h].parent, j - 1, k);
    }
  }

  /** Storing a header with a known parent keeps the tree, the difficulties and the index. */
  lemma AddHeader(headers: Headers, td: map<Hash, nat>, genesis: Hash, index: Index, top: Hash, x: Header)
    requires Tree(headers, genesis) && TdOk(headers, td, genesis) && Canonical(headers, index, top)
    requires Attached(headers, x) && x.hash != ZERO_HASH && (x.hash in headers ==> headers[x.hash] == x)
    ensures var headers' := headers[x.hash := x];
            && Tree(headers', genesis)
            && TdOk(headers', td[x.hash := x.difficulty + td[x.parent]], genesis)
            && Canonical(headers', index, top)
    ensures x.hash in headers ==> td[x.hash] == x.difficulty + td[x.parent]
    ensures top in td
  {
    var headers' := headers[x.hash := x];
    assert x.hash != genesis;
    assert x.hash in headers ==> TdAt(headers, td, x.hash);
    var td' := td[x.hash := x.difficulty + td[x.parent]];
    forall h | h in headers'
      ensures NodeOk(headers', genesis, h)
    {
      assert h != x.hash ==> NodeOk(headers, genesis, h);
    }
    forall h | h in headers' && h != genesis
      ensures TdAt(headers', td', h)
    {
      assert h in headers ==> TdAt(headers, td, h);
    }
    forall n | 0 <= n <= headers[top].number
      ensures EntryOk(headers', index, n)
    {
      assert EntryOk(headers, index, n);
    }
  }

  /** Putting a header on top of a path that ends in its parent gives its path. */
  lemma HeadOnTop(headers: Headers, index: Index, x: Header)
    requires x.hash in headers && headers[x.hash] == x && Attached(headers, x)
    requires forall n :: 0 <= n <= headers[x.parent].number ==> EntryOk(headers, index, n)
    requires headers[x.parent].number in index && index[headers[x.parent].number] == x.parent
    requires forall n :: n in index ==> n <= x.number
    ensures Canonical(headers, index[x.number := x.hash], x.hash)
  {
    var index' := index[x.number := x.hash];
    forall n | 0 <= n <= x.number
      ensures EntryOk(headers, index', n)
    {
      if n < x.number {
        assert EntryOk(headers, index, n);
      }
    }
  }
}
