/** Moving the canonical chain of blocks from one head to another (reorg and insert in
    core/blockchain.go), on the databases as values: headers and bodies by hash, the number index
    and the transaction lookup table. */
module Reorg {
  import opened Types
  import opened HeaderChain

  /** Transaction hashes of a block, by block hash. */
  type Bodies = map<Hash, seq<Hash>>

  datatype LookupEntry = LookupEntry(block: Hash, number: nat, position: nat)
  type Lookup = map<Hash, LookupEntry>

  /******* No transaction twice on one chain *******/

  predicate Disjoint(a: seq<Hash>, b: seq<Hash>) {
    forall i, j :: 0 <= i < |a| && 0 <= j < |b| ==> a[i] != b[j]
  }

  predicate NoDuplicates(a: seq<Hash>) {
    forall i, j :: 0 <= i < j < |a| ==> a[i] != a[j]
  }

  /** A block shares no transaction with the ancestor `k` links above it. */
  ghost predicate ApartFrom(headers: Headers, bodies: Bodies, h: Hash, k: nat) {
    var u := Up(headers, h, k);
    h in bodies && (u.Some? && u.value in bodies ==> Disjoint(bodies[h], bodies[u.value]))
  }

  /** Nonces make a transaction valid once per chain, so no block repeats one of its ancestors'. */
  ghost predicate NoRepeats(headers: Headers, bodies: Bodies) {
    && (forall h {:trigger NoDuplicates(bodies[h])} :: h in bodies ==> NoDuplicates(bodies[h]))
    && (forall h, k: nat {:trigger ApartFrom(headers, bodies, h, k)} ::
          h in bodies && h in headers && 0 < k <= headers[h].number ==> ApartFrom(headers, bodies, h, k))
  }

  /******* The lookup table *******/

  /** Every transaction of the block at `n` is listed at its position. */
  ghost predicate ListedAt(bodies: Bodies, index: Index, lookup: Lookup, n: nat) {
    n in index && index[n] in bodies &&
    forall i :: 0 <= i < |bodies[index[n]]| ==>
      bodies[index[n]][i] in lookup && lookup[bodies[index[n]][i]] == LookupEntry(index[n], n, i)
  }

  /** An entry points at its transaction's position on the canonical chain, not above `m`. */
  ghost predicate PointsAt(bodies: Bodies, index: Index, e: LookupEntry, t: Hash, m: nat) {
    && e.number <= m && e.number in index && index[e.number] == e.block
    && e.block in bodies && e.position < |bodies[e.block]| && bodies[e.block][e.position] == t
  }

  /** The table holds exactly the transactions of the canonical chain up to `m`, each at its place. */
  ghost predicate LookupExact(bodies: Bodies, index: Index, lookup: Lookup, m: nat) {
    && (forall n {:trigger ListedAt(bodies, index, lookup, n)} :: 0 <= n <= m ==> ListedAt(bodies, index, lookup, n))
    && (forall t {:trigger t in lookup} :: t in lookup ==> PointsAt(bodies, index, lookup[t], t, m))
  }

  /** `WriteTxLookupEntries`. */
  method WriteTxLookupEntries(lookup: Lookup, block: Hash, number: nat, txs: seq<Hash>) returns (lookup': Lookup)
    requires NoDuplicates(txs)
    ensures forall i :: 0 <= i < |txs| ==> txs[i] in lookup' && lookup'[txs[i]] == LookupEntry(block, number, i)
    ensures forall t :: t !in txs ==> (t in lookup' <==> t in lookup) && (t in lookup ==> lookup'[t] == lookup[t])
  {
    lookup' := lookup;
    for i := 0 to |txs|
      invariant forall j :: 0 <= j < i ==> txs[j] in lookup' && lookup'[txs[j]] == LookupEntry(block, number, j)
      invariant forall t :: t !in txs ==> (t in lookup' <==> t in lookup) && (t in lookup ==> lookup'[t] == lookup[t])
    {
      lookup' := lookup'[txs[i] := LookupEntry(block, number, i)];
    }
  }

  /******* The common ancestor *******/

  /** `chain` lists the first blocks on the way up from `h`. */
  ghost predicate PathFrom(headers: Headers, h: Hash, chain: seq<Hash>) {
    forall i :: 0 <= i < |chain| ==> Up(headers, h, i) == Some(chain[i])
  }

  lemma PathSnoc(headers: Headers, h: Hash, chain: seq<Hash>, x: Hash)
    requires PathFrom(headers, h, chain) && Up(headers, h, |chain|) == Some(x)
    ensures PathFrom(headers, h, chain + [x])
    ensures x in headers ==> Up(headers, h, |chain| + 1) == Some(headers[x].parent)
  {
    UpStep(headers, h, |chain|);
  }

  /** Walk up from `h` to number `number`, collecting the blocks passed. */
  method Descend(headers: Headers, genesis: Hash, h: Hash, number: nat) returns (x: Hash, chain: seq<Hash>)
    requires Tree(headers, genesis) && h in headers && number <= headers[h].number
    ensures x in headers && headers[x].number == number
    ensures |chain| == headers[h].number - number && PathFrom(headers, h, chain) && Up(headers, h, |chain|) == Some(x)
  {
    x, chain := h, [];
    while headers[x].number != number
      invariant x in headers && number <= headers[x].number
      invariant |chain| == headers[h].number - headers[x].number
      invariant PathFrom(headers, h, chain) && Up(headers, h, |chain|) == Some(x)
      decreases headers[x].number
    {
      ParentStep(headers, genesis, x);
      PathSnoc(headers, h, chain, x);
      chain := chain + [x];
      x := headers[x].parent;
    }
  }

  /** The two searches of `reorg`: level the longer chain, then step back on both until they meet. They
      meet at the highest common ancestor; neither runs off its chain. */
  method FindFork(headers: Headers, genesis: Hash, oldHead: Hash, newHead: Hash)
    returns (common: Hash, oldChain: seq<Hash>, newChain: seq<Hash>)
    requires Tree(headers, genesis) && oldHead in headers && newHead in headers
    ensures common in headers
    ensures PathFrom(headers, oldHead, oldChain) && Up(headers, oldHead, |oldChain|) == Some(common)
    ensures PathFrom(headers, newHead, newChain) && Up(headers, newHead, |newChain|) == Some(common)
    ensures |oldChain| == headers[oldHead].number - headers[common].number
    ensures |newChain| == headers[newHead].number - headers[common].number
    ensures |oldChain| > 0 && |newChain| > 0 ==> oldChain[|oldChain| - 1] != newChain[|newChain| - 1]
    ensures forall i: nat, j: nat :: SharedAt(headers, oldHead, newHead, i, j) ==>
              headers[oldHead].number - i <= headers[common].number
  {
    var low := if headers[oldHead].number > headers[newHead].number then headers[newHead].number
               else headers[oldHead].number;
    var oldBlock, newBlock;
    oldBlock, oldChain := Descend(headers, genesis, oldHead, low);
    newBlock, newChain := Descend(headers, genesis, newHead, low);
    while oldBlock != newBlock
      invariant oldBlock in headers && newBlock in headers && headers[oldBlock].number == headers[newBlock].number
      invariant PathFrom(headers, oldHead, oldChain) && Up(headers, oldHead, |oldChain|) == Some(oldBlock)
      invariant PathFrom(headers, newHead, newChain) && Up(headers, newHead, |newChain|) == Some(newBlock)
      invariant |oldChain| == headers[oldHead].number - headers[oldBlock].number
      invariant |newChain| == headers[newHead].number - headers[newBlock].number
      invariant |oldChain| > 0 && |newChain| > 0 ==> oldChain[|oldChain| - 1] != newChain[|newChain| - 1]
      decreases headers[oldBlock].number
    {
      if headers[oldBlock].number == 0 {
        OneRoot(headers, genesis, oldBlock, newBlock);
        assert false;
      }
      PathSnoc(headers, oldHead, oldChain, oldBlock);
      PathSnoc(headers, newHead, newChain, newBlock);
      ParentStep(headers, genesis, oldBlock);
      ParentStep(headers, genesis, newBlock);
      oldChain, newChain := oldChain + [oldBlock], newChain + [newBlock];
      oldBlock, newBlock := headers[oldBlock].parent, headers[newBlock].parent;
    }
    common := oldBlock;
    forall i: nat, j: nat | SharedAt(headers, oldHead, newHead, i, j)
      ensures headers[oldHead].number - i <= headers[common].number
    {
      SharedIsLower(headers, genesis, oldHead, newHead, common, oldChain, newChain, i, j);
    }
  }

  /** The two heads have the same ancestor after `i` and `j` parent links. */
  ghost predicate SharedAt(headers: Headers, oldHead: Hash, newHead: Hash, i: nat, j: nat)
    requires oldHead in headers && newHead in headers
  {
    && i <= headers[oldHead].number && j <= headers[newHead].number
    && Up(headers, oldHead, i) == Up(headers, newHead, j)
  }

  /** Every common ancestor lies at or below the fork. */
  lemma SharedIsLower(headers: Headers, genesis: Hash, oldHead: Hash, newHead: Hash, common: Hash,
                      oldChain: seq<Hash>, newChain: seq<Hash>, i: nat, j: nat)
    requires Tree(headers, genesis) && oldHead in headers && newHead in headers && common in headers
    requires PathFrom(headers, oldHead, oldChain) && PathFrom(headers, newHead, newChain)
    requires |oldChain| == headers[oldHead].number - headers[common].number
    requires |newChain| == headers[newHead].number - headers[common].number
    requires |oldChain| > 0 && |newChain| > 0 ==> oldChain[|oldChain| - 1] != newChain[|newChain| - 1]
    requires SharedAt(headers, oldHead, newHead, i, j)
    ensures headers[oldHead].number - i <= headers[common].number
  {
    UpStaysInTree(headers, genesis, oldHead, i);
    UpStaysInTree(headers, genesis, newHead, j);
    if i < |oldChain| {
      ForkIsHighest(headers, oldHead, newHead, oldChain, newChain, i, j);
      assert false;
    }
  }

  lemma OneRoot(headers: Headers, genesis: Hash, a: Hash, b: Hash)
    requires Tree(headers, genesis) && a in headers && b in headers && headers[a].number == 0 && headers[b].number == 0
    ensures a == b
  {
    assert NodeOk(headers, genesis, a) && NodeOk(headers, genesis, b);
  }

  /** Two chains whose lowest collected blocks differ have no block in common above the fork. */
  lemma ForkIsHighest(headers: Headers, oldHead: Hash, newHead: Hash, oldChain: seq<Hash>, newChain: seq<Hash>, i: nat,
                      j: nat)
    requires PathFrom(headers, oldHead, oldChain) && PathFrom(headers, newHead, newChain)
    requires i < |oldChain| && j < |newChain| && |oldChain| - i == |newChain| - j
    requires oldChain[|oldChain| - 1] != newChain[|newChain| - 1]
    ensures oldChain[i] != newChain[j]
  {
    UpCompose(headers, oldHead, i, |oldChain| - 1 - i);
    UpCompose(headers, newHead, j, |newChain| - 1 - j);
  }

  /******* Inserting the new chain *******/

  /** What holds while the new chain is being inserted, with everything up to `m` done: the index is
      linked up to `m` and ends in `tip`, its transactions are listed, and any other entry belongs to a
      transaction of the abandoned blocks. */
  ghost predicate Inserting(headers: Headers, bodies: Bodies, index: Index, lookup: Lookup, m: nat, tip: Hash,
                            deleted: seq<Hash>)
  {
    && m in index && index[m] == tip
    && (forall n :: 0 <= n <= m ==> EntryOk(headers, index, n))
    && (forall n {:trigger ListedAt(bodies, index, lookup, n)} :: 0 <= n <= m ==> ListedAt(bodies, index, lookup, n))
    && (forall t {:trigger t in lookup} :: t in lookup ==> PointsAt(bodies, index, lookup[t], t, m) || t in deleted)
  }

  /** A linked index lists ancestors: `k` below `n` is the entry `k` lower. */
  lemma {:induction false} LinkedIndex(headers: Headers, index: Index, m: nat, n: nat, k: nat)
    requires forall i :: 0 <= i <= m ==> EntryOk(headers, index, i)
    requires k <= n <= m
    ensures n in index && n - k in index && Up(headers, index[n], k) == Some(index[n - k])
    decreases k
  {
    assert EntryOk(headers, index, n);
    if k > 0 {
      LinkedIndex(headers, index, m, n - 1, k - 1);
    }
  }

  /** One block on top: the transactions already listed below stay listed, because the block repeats
      none of them. */
  lemma InsertBlock(headers: Headers, bodies: Bodies, index: Index, lookup: Lookup, m: nat, tip: Hash,
                    deleted: seq<Hash>, h: Hash, lookup': Lookup)
    requires bodies.Keys == headers.Keys && NoRepeats(headers, bodies)
    requires Inserting(headers, bodies, index, lookup, m, tip, deleted)
    requires h in headers && headers[h].number == m + 1 && headers[h].parent == tip
    requires forall i :: 0 <= i < |bodies[h]| ==>
               bodies[h][i] in lookup' && lookup'[bodies[h][i]] == LookupEntry(h, m + 1, i)
    requires forall t :: t !in bodies[h] ==>
               (t in lookup' <==> t in lookup) && (t in lookup ==> lookup'[t] == lookup[t])
    ensures Inserting(headers, bodies, index[m + 1 := h], lookup', m + 1, h, deleted)
  {
    hide Up, NoDuplicates;
    var index' := index[m + 1 := h];
    forall n | 0 <= n <= m + 1
      ensures EntryOk(headers, index', n)
    {
      assert n <= m ==> EntryOk(headers, index, n);
    }
    forall n | 0 <= n <= m + 1
      ensures ListedAt(bodies, index', lookup', n)
    {
      if n <= m {
        assert ListedAt(bodies, index, lookup, n);
        LinkedIndex(headers, index', m + 1, m + 1, m + 1 - n);
        assert ApartFrom(headers, bodies, h, m + 1 - n);
      }
    }
    forall t | t in lookup'
      ensures PointsAt(bodies, index', lookup'[t], t, m + 1) || t in deleted
    {
      if t in bodies[h] {
        var i :| 0 <= i < |bodies[h]| && bodies[h][i] == t;
      } else {
        assert t in lookup;
      }
    }
  }

  /** The third loop of `reorg`: insert the new blocks in increasing order and list their transactions. */
  method InsertChain(headers: Headers, bodies: Bodies, index: Index, lookup: Lookup, newHead: Hash, newChain: seq<Hash>,
                     ghost common: Hash, ghost deleted: seq<Hash>)
    returns (index': Index, lookup': Lookup, added: seq<Hash>)
    requires bodies.Keys == headers.Keys && NoRepeats(headers, bodies)
    requires common in headers && newHead in headers
    requires PathFrom(headers, newHead, newChain) && Up(headers, newHead, |newChain|) == Some(common)
    requires |newChain| == headers[newHead].number - headers[common].number
    requires forall i :: 0 <= i < |newChain| ==>
               newChain[i] in headers && headers[newChain[i]].number == headers[newHead].number - i
    requires Inserting(headers, bodies, index, lookup, headers[common].number, common, deleted)
    ensures Inserting(headers, bodies, index', lookup', headers[newHead].number, newHead, deleted)
    ensures forall n: nat :: n <= headers[common].number || n > headers[newHead].number ==> SameAt(index', index, n)
    ensures AddedOk(bodies, index', headers[common].number, headers[newHead].number, added)
  {
    index', lookup', added := index, lookup, [];
    ghost var c := headers[common].number;
    var i := |newChain|;
    ghost var tip := common;
    UpZero(headers, newHead);
    while i > 0
      invariant 0 <= i <= |newChain|
      invariant Up(headers, newHead, i) == Some(tip) && tip in headers && headers[tip].number == c + |newChain| - i
      invariant Inserting(headers, bodies, index', lookup', c + |newChain| - i, tip, deleted)
      invariant forall n: nat :: n <= c || n > c + |newChain| - i ==> SameAt(index', index, n)
      invariant AddedOk(bodies, index', c, c + |newChain| - i, added)
    {
      i := i - 1;
      var h := newChain[i];
      assert Up(headers, newHead, i) == Some(h);
      UpStep(headers, newHead, i);
      ghost var m := c + |newChain| - (i + 1);
      assert NoDuplicates(bodies[h]);
      var lookup2 := WriteTxLookupEntries(lookup', h, headers[h].number, bodies[h]);
      InsertBlock(headers, bodies, index', lookup', m, tip, deleted, h, lookup2);
      AddedSnoc(bodies, index', c, m, added, h);
      index' := InsertEntry(index', index, c, m, headers[h].number, h);
      lookup' := lookup2;
      added := added + bodies[h];
      tip := h;
    }
  }

  /** `insert`, as far as the index is concerned. */
  method InsertEntry(index: Index, ghost start: Index, ghost c: nat, ghost m: nat, number: nat, h: Hash)
    returns (index': Index)
    requires number == m + 1 && c <= m && forall n: nat :: n <= c || n > m ==> SameAt(index, start, n)
    ensures index' == index[number := h]
    ensures forall n: nat :: n <= c || n > m + 1 ==> SameAt(index', start, n)
  {
    index' := index[number := h];
    forall n: nat | n <= c || n > m + 1
      ensures SameAt(index', start, n)
    {
      assert SameAt(index, start, n);
    }
  }

  ghost predicate InBlockAt(bodies: Bodies, index: Index, n: nat, t: Hash) {
    n in index && index[n] in bodies && t in bodies[index[n]]
  }

  /** `added` holds exactly the transactions of the blocks above `c` up to `m`. */
  ghost predicate AddedOk(bodies: Bodies, index: Index, c: nat, m: nat, added: seq<Hash>) {
    && (forall t :: t in added ==> exists n :: c < n <= m && InBlockAt(bodies, index, n, t))
    && (forall n, t :: c < n <= m && InBlockAt(bodies, index, n, t) ==> t in added)
  }

  lemma AddedSnoc(bodies: Bodies, index: Index, c: nat, m: nat, added: seq<Hash>, h: Hash)
    requires AddedOk(bodies, index, c, m, added) && h in bodies && c <= m
    ensures AddedOk(bodies, index[m + 1 := h], c, m + 1, added + bodies[h])
  {
    var index', added' := index[m + 1 := h], added + bodies[h];
    forall t | t in added'
      ensures exists n :: c < n <= m + 1 && InBlockAt(bodies, index', n, t)
    {
      if t in added {
        var n :| c < n <= m && InBlockAt(bodies, index, n, t);
        assert InBlockAt(bodies, index', n, t);
      } else {
        assert InBlockAt(bodies, index', m + 1, t);
      }
    }
    forall n, t | c < n <= m + 1 && InBlockAt(bodies, index', n, t)
      ensures t in added'
    {
      if n <= m {
        assert InBlockAt(bodies, index, n, t);
      }
    }
  }

  /******* The whole reorganisation *******/

  /** The transactions of a list of blocks. */
  function TxsOfChain(bodies: Bodies, chain: seq<Hash>): seq<Hash>
    requires forall i :: 0 <= i < |chain| ==> chain[i] in bodies
  {
    if chain == [] then [] else bodies[chain[0]] + TxsOfChain(bodies, chain[1..])
  }

  lemma {:induction false} InChainTxs(bodies: Bodies, chain: seq<Hash>, t: Hash)
    requires forall i :: 0 <= i < |chain| ==> chain[i] in bodies
    ensures t in TxsOfChain(bodies, chain) <==> exists i :: 0 <= i < |chain| && t in bodies[chain[i]]
  {
    if chain != [] {
      InChainTxs(bodies, chain[1..], t);
      if exists i :: 0 <= i < |chain| && t in bodies[chain[i]] {
        var i :| 0 <= i < |chain| && t in bodies[chain[i]];
        assert i > 0 ==> chain[1..][i - 1] == chain[i];
      }
      if exists i :: 0 <= i < |chain[1..]| && t in bodies[chain[1..][i]] {
        var i :| 0 <= i < |chain[1..]| && t in bodies[chain[1..][i]];
        assert chain[i + 1] == chain[1..][i];
      }
    }
  }

  /** The abandoned blocks are the index entries above the common ancestor. */
  lemma AbandonedBlock(headers: Headers, index: Index, oldHead: Hash, oldChain: seq<Hash>, n: nat)
    requires Canonical(headers, index, oldHead) && PathFrom(headers, oldHead, oldChain)
    requires headers[oldHead].number - |oldChain| < n <= headers[oldHead].number
    ensures n in index && index[n] == oldChain[headers[oldHead].number - n]
  {
    CanonicalIsAncestorPath(headers, index, oldHead, n);
  }

  /** Where the insertion starts. */
  lemma StartInserting(headers: Headers, bodies: Bodies, index: Index, lookup: Lookup, oldHead: Hash,
                       oldChain: seq<Hash>, common: Hash)
    requires bodies.Keys == headers.Keys && Canonical(headers, index, oldHead) && common in headers
    requires LookupExact(bodies, index, lookup, headers[oldHead].number)
    requires PathFrom(headers, oldHead, oldChain) && Up(headers, oldHead, |oldChain|) == Some(common)
    requires |oldChain| == headers[oldHead].number - headers[common].number
    requires forall i :: 0 <= i < |oldChain| ==> oldChain[i] in bodies
    ensures Inserting(headers, bodies, index, lookup, headers[common].number, common, TxsOfChain(bodies, oldChain))
  {
    hide Up;
    var c := headers[common].number;
    CanonicalIsAncestorPath(headers, index, oldHead, c);
    forall t | t in lookup
      ensures PointsAt(bodies, index, lookup[t], t, c) || t in TxsOfChain(bodies, oldChain)
    {
      var n := lookup[t].number;
      if n > c {
        AbandonedBlock(headers, index, oldHead, oldChain, n);
        InChainTxs(bodies, oldChain, t);
        assert t in bodies[oldChain[headers[oldHead].number - n]];
      }
    }
  }

  /** The abandoned blocks repeat no transaction of the chain below the fork. */
  lemma NotAbandoned(headers: Headers, bodies: Bodies, index: Index, oldHead: Hash, oldChain: seq<Hash>, n: nat,
                     t: Hash)
    requires bodies.Keys == headers.Keys && NoRepeats(headers, bodies) && Canonical(headers, index, oldHead)
    requires PathFrom(headers, oldHead, oldChain) && |oldChain| <= headers[oldHead].number
    requires forall i :: 0 <= i < |oldChain| ==> oldChain[i] in bodies
    requires n <= headers[oldHead].number - |oldChain| && InBlockAt(bodies, index, n, t)
    ensures t !in TxsOfChain(bodies, oldChain)
  {
    hide Up;
    InChainTxs(bodies, oldChain, t);
    forall i | 0 <= i < |oldChain|
      ensures t !in bodies[oldChain[i]]
    {
      var m := headers[oldHead].number - i;
      AbandonedBlock(headers, index, oldHead, oldChain, m);
      UpFollowsIndex(headers, index, oldHead, m, m - n);
      assert EntryOk(headers, index, m);
      assert ApartFrom(headers, bodies, oldChain[i], m - n);
    }
  }

  /** Dropping the entries of transactions that are only on the abandoned side makes the table exact. */
  lemma FinishInserting(headers: Headers, bodies: Bodies, index: Index, lookup: Lookup, c: nat, m: nat, tip: Hash,
                        deleted: seq<Hash>, added: seq<Hash>, gone: set<Hash>)
    requires Inserting(headers, bodies, index, lookup, m, tip, deleted) && AddedOk(bodies, index, c, m, added)
    requires forall t :: t in gone <==> t in deleted && t !in added
    requires forall n, t {:trigger InBlockAt(bodies, index, n, t)} ::
               0 <= n <= c && InBlockAt(bodies, index, n, t) ==> t !in deleted
    ensures LookupExact(bodies, index, lookup - gone, m)
  {
    var lookup' := lookup - gone;
    forall n | 0 <= n <= m
      ensures ListedAt(bodies, index, lookup', n)
    {
      assert ListedAt(bodies, index, lookup, n);
      forall i | 0 <= i < |bodies[index[n]]|
        ensures bodies[index[n]][i] !in gone
      {
        assert InBlockAt(bodies, index, n, bodies[index[n]][i]);
      }
    }
    forall t | t in lookup'
      ensures PointsAt(bodies, index, lookup'[t], t, m)
    {
      if t in deleted {
        var n :| c < n <= m && InBlockAt(bodies, index, n, t);
        assert ListedAt(bodies, index, lookup, n);
        var i :| 0 <= i < |bodies[index[n]]| && bodies[index[n]][i] == t;
      }
    }
  }

  /** `reorg`. The index follows the new chain up to the new head and is otherwise unchanged; the lookup
      table holds exactly the new chain's transactions, each at its position. */
  method Reorganise(headers: Headers, genesis: Hash, bodies: Bodies, index: Index, lookup: Lookup, oldHead: Hash,
                    newHead: Hash)
    returns (index': Index, lookup': Lookup)
    requires Tree(headers, genesis) && Canonical(headers, index, oldHead) && newHead in headers
    requires bodies.Keys == headers.Keys && NoRepeats(headers, bodies)
    requires LookupExact(bodies, index, lookup, headers[oldHead].number)
    ensures headers[newHead].number in index' && index'[headers[newHead].number] == newHead
    ensures forall n :: 0 <= n <= headers[newHead].number ==> EntryOk(headers, index', n)
    ensures forall n: nat :: n > headers[newHead].number ==> SameAt(index', index, n)
    ensures LookupExact(bodies, index', lookup', headers[newHead].number)
  {
    var common, oldChain, newChain := FindFork(headers, genesis, oldHead, newHead);
    PathInTree(headers, genesis, oldHead, oldChain);
    PathInTree(headers, genesis, newHead, newChain);
    ghost var c := headers[common].number;
    var deleted := TxsOfChain(bodies, oldChain);
    StartInserting(headers, bodies, index, lookup, oldHead, oldChain, common);
    var added;
    index', lookup', added := InsertChain(headers, bodies, index, lookup, newHead, newChain, common, deleted);
    var gone := set t | t in deleted && t !in added;
    forall n, t | 0 <= n <= c && InBlockAt(bodies, index', n, t)
      ensures t !in deleted
    {
      assert SameAt(index', index, n);
      NotAbandoned(headers, bodies, index, oldHead, oldChain, n, t);
    }
    FinishInserting(headers, bodies, index', lookup', c, headers[newHead].number, newHead, deleted, added, gone);
    lookup' := lookup' - gone;
  }

  lemma PathInTree(headers: Headers, genesis: Hash, h: Hash, chain: seq<Hash>)
    requires Tree(headers, genesis) && h in headers && PathFrom(headers, h, chain) && |chain| <= headers[h].number
    ensures forall i :: 0 <= i < |chain| ==> chain[i] in headers && headers[chain[i]].number == headers[h].number - i
  {
    forall i | 0 <= i < |chain|
      ensures chain[i] in headers && headers[chain[i]].number == headers[h].number - i
    {
      UpStaysInTree(headers, genesis, h, i);
    }
  }

  /** Since entries above the new head are kept, the index is exactly the new chain if and only if the
      new head is not lower than the old one. With every difficulty 1, heavier means higher, so that
      is when `reorg` is called. */
  lemma IndexExactExactlyWhenNotLower(headers: Headers, index: Index, oldHead: Hash, index': Index, newHead: Hash)
    requires Canonical(headers, index, oldHead) && newHead in headers
    requires headers[newHead].number in index' && index'[headers[newHead].number] == newHead
    requires forall n :: 0 <= n <= headers[newHead].number ==> EntryOk(headers, index', n)
    requires forall n: nat :: n > headers[newHead].number ==> SameAt(index', index, n)
    ensures Canonical(headers, index', newHead) <==> headers[newHead].number >= headers[oldHead].number
  {
    if headers[newHead].number < headers[oldHead].number {
      assert EntryOk(headers, index, headers[oldHead].number);
      assert SameAt(index', index, headers[oldHead].number);
    } else {
      forall n | n in index'
        ensures n <= headers[newHead].number
      {
        assert n > headers[newHead].number ==> SameAt(index', index, n);
      }
    }
  }

  /** A heavy block at number 1 beside a light chain of two: reorganising to it leaves the entry at number 2. */
  method LowerHeadLeavesEntryBehind() returns (headers: Headers, index: Index, index': Index)
    ensures headers.Keys == {1, 2, 3, 4} && Tree(headers, 1) && Canonical(headers, index, 3)
    ensures headers[4].difficulty > headers[2].difficulty + headers[3].difficulty
    ensures index' == index[1 := 4] && !Canonical(headers, index', 4)
  {
    headers := map[1 := Header(1, 0, 0, 0), 2 := Header(2, 1, 1, 1), 3 := Header(3, 2, 2, 1), 4 := Header(4, 1, 1, 3)];
    index := map[0 := 1, 1 := 2, 2 := 3];
    var bodies: Bodies := map[1 := [], 2 := [], 3 := [], 4 := []];
    assert EntryOk(headers, index, 0) && EntryOk(headers, index, 1) && EntryOk(headers, index, 2);
    NoTransactions(headers, bodies, index, 2);
    var lookup;
    index', lookup := Reorganise(headers, 1, bodies, index, map[], 3, 4);
    assert EntryOk(headers, index', 1) && SameAt(index', index, 2);
    forall n: nat | n > 2
      ensures n !in index'
    {
      assert SameAt(index', index, n);
    }
  }

  lemma NoTransactions(headers: Headers, bodies: Bodies, index: Index, m: nat)
    requires bodies.Keys == headers.Keys && forall h :: h in bodies ==> bodies[h] == []
    requires forall n :: 0 <= n <= m ==> EntryOk(headers, index, n)
    ensures NoRepeats(headers, bodies) && LookupExact(bodies, index, map[], m)
  {
    forall n | 0 <= n <= m
      ensures ListedAt(bodies, index, map[], n)
    {
      assert EntryOk(headers, index, n);
    }
  }
}
