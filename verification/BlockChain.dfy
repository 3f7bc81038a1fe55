/** The canonical chain of blocks (core/blockchain.go): fork choice, reorganisation and the three
    ways a full node extends the chain. Every block after genesis has difficulty 1. */
module BlockChain {
  import opened Types
  import opened HeaderChain
  import opened Reorg

  /******* Storing a block *******/

  ghost predicate UnitDifficulty(headers: Headers, genesis: Hash) {
    forall h :: h in headers && h != genesis ==> headers[h].difficulty == 1
  }

  /** With unit difficulties, heavier means higher. */
  lemma {:induction false} TdIsNumber(headers: Headers, td: map<Hash, nat>, genesis: Hash, h: Hash)
    requires Tree(headers, genesis) && TdOk(headers, td, genesis) && UnitDifficulty(headers, genesis) && h in headers
    ensures td[h] == td[genesis] + headers[h].number
    decreases headers[h].number
  {
    assert NodeOk(headers, genesis, h);
    if h != genesis {
      assert TdAt(headers, td, h);
      TdIsNumber(headers, td, genesis, headers[h].parent);
    }
  }

  /** The block repeats no transaction of its own or of the chain it extends. */
  ghost predicate FreshTxs(headers: Headers, bodies: Bodies, parent: Hash, txs: seq<Hash>)
    requires parent in headers
  {
    && NoDuplicates(txs)
    && forall k: nat {:trigger Up(headers, parent, k)} :: k <= headers[parent].number ==>
         var u := Up(headers, parent, k);
         u.Some? && u.value in bodies ==> Disjoint(txs, bodies[u.value])
  }

  lemma {:induction false} UpUnchanged(headers: Headers, genesis: Hash, x: Header, h: Hash, k: nat)
    requires Tree(headers, genesis) && x.hash !in headers && h in headers && k <= headers[h].number
    ensures Up(headers[x.hash := x], h, k) == Up(headers, h, k)
    decreases k
  {
    if k > 0 {
      ParentStep(headers, genesis, h);
      UpUnchanged(headers, genesis, x, headers[h].parent, k - 1);
    }
  }

  lemma AddBody(headers: Headers, genesis: Hash, bodies: Bodies, x: Header, txs: seq<Hash>)
    requires Tree(headers, genesis) && bodies.Keys == headers.Keys && NoRepeats(headers, bodies)
    requires Attached(headers, x) && FreshTxs(headers, bodies, x.parent, txs)
    requires x.hash in headers ==> headers[x.hash] == x && bodies[x.hash] == txs
    ensures NoRepeats(headers[x.hash := x], bodies[x.hash := txs])
  {
    var headers', bodies' := headers[x.hash := x], bodies[x.hash := txs];
    if x.hash in headers {
      assert headers' == headers && bodies' == bodies;
    } else {
      forall h | h in bodies'
        ensures NoDuplicates(bodies'[h])
      {
        assert h in bodies ==> NoDuplicates(bodies[h]);
      }
      forall h, k: nat | h in bodies' && h in headers' && 0 < k <= headers'[h].number
        ensures ApartFrom(headers', bodies', h, k)
      {
        if h == x.hash {
          UpUnchanged(headers, genesis, x, x.parent, k - 1);
          UpStaysInTree(headers, genesis, x.parent, k - 1);
        } else {
          assert ApartFrom(headers, bodies, h, k);
          UpUnchanged(headers, genesis, x, h, k);
          UpStaysInTree(headers, genesis, h, k);
        }
      }
    }
  }

  lemma LookupUnaffected(headers: Headers, genesis: Hash, bodies: Bodies, index: Index, lookup: Lookup, top: Hash,
                         h: Hash, txs: seq<Hash>)
    requires Canonical(headers, index, top) && bodies.Keys == headers.Keys
    requires LookupExact(bodies, index, lookup, headers[top].number)
    requires h in bodies ==> bodies[h] == txs
    ensures LookupExact(bodies[h := txs], index, lookup, headers[top].number)
  {
    var bodies' := bodies[h := txs];
    forall n | 0 <= n <= headers[top].number
      ensures ListedAt(bodies', index, lookup, n)
    {
      assert ListedAt(bodies, index, lookup, n);
    }
  }

  /** Extending the head: the new block on top of the index, its transactions listed. */
  lemma ExtendHead(headers: Headers, bodies: Bodies, index: Index, lookup: Lookup, top: Hash, x: Header,
                   lookup': Lookup)
    requires bodies.Keys == headers.Keys && NoRepeats(headers, bodies) && Canonical(headers, index, top)
    requires LookupExact(bodies, index, lookup, headers[top].number)
    requires x.hash in headers && headers[x.hash] == x && x.parent == top && x.number == headers[top].number + 1
    requires var txs := bodies[x.hash];
             && (forall i :: 0 <= i < |txs| ==>
                 txs[i] in lookup' && lookup'[txs[i]] == LookupEntry(x.hash, x.number, i))
             && (forall t :: t !in txs ==> (t in lookup' <==> t in lookup) && (t in lookup ==> lookup'[t] == lookup[t]))
    ensures Canonical(headers, index[x.number := x.hash], x.hash)
    ensures LookupExact(bodies, index[x.number := x.hash], lookup', x.number)
  {
    InsertBlock(headers, bodies, index, lookup, headers[top].number, top, [], x.hash, lookup');
  }

  /** Writing the head's own entries again changes nothing. */
  lemma RewriteHead(bodies: Bodies, index: Index, lookup: Lookup, h: Hash, m: nat, lookup': Lookup)
    requires LookupExact(bodies, index, lookup, m) && h in bodies && m in index && index[m] == h
    requires forall i :: 0 <= i < |bodies[h]| ==>
               bodies[h][i] in lookup' && lookup'[bodies[h][i]] == LookupEntry(h, m, i)
    requires forall t :: t !in bodies[h] ==>
               (t in lookup' <==> t in lookup) && (t in lookup ==> lookup'[t] == lookup[t])
    ensures lookup' == lookup
  {
    assert ListedAt(bodies, index, lookup, m);
    forall t
      ensures (t in lookup' <==> t in lookup) && (t in lookup ==> lookup'[t] == lookup[t])
    {
      if t in bodies[h] {
        var i :| 0 <= i < |bodies[h]| && bodies[h][i] == t;
      }
    }
  }

  datatype ProcessResult =
    | Stored | AlreadyThere | ParentMissing | HashMismatch | ForkFound | WitnessRefused | ExecutionFailed

  /** How a delivered block fares before it is written: its witness is refused, a transaction fails, or it is
      executed and sealed with a hash. */
  datatype Execution = BadWitness | BadTransaction | Executed(hash: Hash, txs: seq<Hash>)

  class BlockChain {
    const genesis: Hash
    var headers: Headers
    var bodies: Bodies
    var td: map<Hash, nat>
    var index: Index
    var lookup: Lookup
    var currentBlock: Hash
    var currentHeader: Hash

    constructor (g: Header)
      requires g.number == 0 && g.hash != ZERO_HASH
      ensures Valid() && Linear() && genesis == currentBlock == g.hash
    {
      genesis, currentBlock, currentHeader := g.hash, g.hash, g.hash;
      headers, bodies, td := map[g.hash := g], map[g.hash := []], map[g.hash := g.difficulty];
      index, lookup := map[0 := g.hash], map[];
      new;
      assert EntryOk(headers, index, 0) && ListedAt(bodies, index, lookup, 0);
    }

    /** Stored data: a tree of unit difficulties with their total difficulties and bodies. */
    ghost predicate StoreValid()
      reads this
    {
      && Tree(headers, genesis) && TdOk(headers, td, genesis) && UnitDifficulty(headers, genesis)
      && bodies.Keys == headers.Keys && NoRepeats(headers, bodies)
    }

    /** The number index is exactly the current block's path, the lookup table lists exactly its
        transactions, and no stored block is higher than the current one. */
    ghost predicate Valid()
      reads this
    {
      && StoreValid()
      && Canonical(headers, index, currentBlock) && currentHeader == currentBlock
      && LookupExact(bodies, index, lookup, headers[currentBlock].number)
      && forall h :: h in headers ==> headers[h].number <= headers[currentBlock].number
    }

    /** Every stored block is canonical: no side chain was ever written. */
    ghost predicate Linear()
      reads this
    {
      forall h :: h in headers ==> headers[h].number in index && index[headers[h].number] == h
    }

    /** What a caller must know of a block: its parent is one lower, hashes do not collide, and its
        transactions are new on its chain. */
    ghost predicate Admissible(x: Header, txs: seq<Hash>)
      reads this
      requires StoreValid()
    {
      && x.hash != ZERO_HASH && x.difficulty == 1
      && (x.parent in headers ==> x.number == headers[x.parent].number + 1 && FreshTxs(headers, bodies, x.parent, txs))
      && (x.hash in headers ==> headers[x.hash] == x && bodies[x.hash] == txs)
    }

    /** `insert`. */
    method Insert(h: Hash)
      requires h in headers
      modifies this`index, this`currentBlock, this`currentHeader
      ensures index == old(index)[headers[h].number := h] && currentBlock == h
      ensures currentHeader == if headers[h].number in old(index) && old(index)[headers[h].number] == h
                               then old(currentHeader) else h
    {
      var number := headers[h].number;
      var updateHeads := !(number in index && index[number] == h);
      index := index[number := h];
      currentBlock := h;
      if updateHeads {
        currentHeader := h;
      }
    }

    /** The fork choice of `WriteBlockWithState`. The two flags are the miner's preference on a tie of
        total difficulty, `coin` the random tie-break. */
    method WriteBlockWithState(x: Header, txs: seq<Hash>, currentPreserve: bool, blockPreserve: bool, coin: bool)
      returns (status: WriteStatus)
      requires Valid() && Admissible(x, txs)
      modifies this
      ensures Valid()
      ensures status.NonStatTy? <==> x.parent !in old(headers)
      ensures status.NonStatTy? ==> headers == old(headers) && index == old(index) && currentBlock == old(currentBlock)
      ensures !status.NonStatTy? ==> headers == old(headers)[x.hash := x] && bodies == old(bodies)[x.hash := txs]
      ensures status.CanonStatTy? ==> currentBlock == x.hash
      ensures status.SideStatTy? ==> index == old(index) && currentBlock == old(currentBlock) && lookup == old(lookup)
      ensures !status.NonStatTy? ==>
                (status.CanonStatTy? <==>
                  var height := old(headers[currentBlock].number);
                  x.number > height || (x.number == height && !currentPreserve && (blockPreserve || coin)))
      ensures x.parent == old(currentBlock) ==> index == old(index)[x.number := x.hash]
    {
      if x.parent !in td {
        return NonStatTy;
      }
      var localTd, externTd := td[currentBlock], 1 + td[x.parent];
      StoreBlock(x, txs, externTd);
      TdIsNumber(headers, td, genesis, currentBlock);
      TdIsNumber(headers, td, genesis, x.hash);
      var reorg := externTd > localTd;
      if !reorg && externTd == localTd {
        if x.number < headers[currentBlock].number {
          reorg := true;
        } else if x.number == headers[currentBlock].number {
          reorg := !currentPreserve && (blockPreserve || coin);
        }
      }
      if reorg {
        MakeHead(x);
        status := CanonStatTy;
      } else {
        status := SideStatTy;
      }
    }

    /** The block, its body and its total difficulty go to the database whatever becomes of it. */
    method StoreBlock(x: Header, txs: seq<Hash>, externTd: nat)
      requires Valid() && Admissible(x, txs) && x.parent in headers && externTd == 1 + td[x.parent]
      modifies this`headers, this`bodies, this`td
      ensures headers == old(headers)[x.hash := x] && bodies == old(bodies)[x.hash := txs]
      ensures td == old(td)[x.hash := externTd]
      ensures StoreValid() && Canonical(headers, index, currentBlock)
      ensures LookupExact(bodies, index, lookup, headers[currentBlock].number)
      ensures headers[currentBlock] == old(headers)[currentBlock]
      ensures td[currentBlock] == old(td)[currentBlock] && x.hash != genesis
      ensures forall h :: h in headers && h != x.hash ==> headers[h].number <= headers[currentBlock].number
      ensures x.number <= headers[currentBlock].number + 1
    {
      hide LookupExact, NoRepeats, FreshTxs;
      AddHeader(headers, td, genesis, index, currentBlock, x);
      AddBody(headers, genesis, bodies, x, txs);
      LookupUnaffected(headers, genesis, bodies, index, lookup, currentBlock, x.hash, txs);
      td := td[x.hash := externTd];
      headers := headers[x.hash := x];
      bodies := bodies[x.hash := txs];
    }

    /** Reorganise if the block does not extend the head, list its transactions and insert it. */
    method MakeHead(x: Header)
      requires StoreValid() && Canonical(headers, index, currentBlock) && currentHeader == currentBlock
      requires LookupExact(bodies, index, lookup, headers[currentBlock].number)
      requires x.hash in headers && headers[x.hash] == x && x.hash != genesis
      requires headers[currentBlock].number <= x.number
      requires forall h :: h in headers && h != x.hash ==> headers[h].number <= headers[currentBlock].number
      modifies this`index, this`lookup, this`currentBlock, this`currentHeader
      ensures Valid() && currentBlock == x.hash
      ensures x.parent == old(currentBlock) ==> index == old(index)[x.number := x.hash]
    {
      hide NoRepeats, LookupExact, TdOk, UnitDifficulty, Tree, Canonical;
      CanonicalHead(headers, index, currentBlock);
      var oldHead, oldIndex := currentBlock, index;
      if x.parent != currentBlock {
        var index', lookup' := Reorganise(headers, genesis, bodies, index, lookup, currentBlock, x.hash);
        IndexExactExactlyWhenNotLower(headers, index, currentBlock, index', x.hash);
        index, lookup, currentBlock := index', lookup', x.hash;
        currentHeader := if x.number in oldIndex && oldIndex[x.number] == x.hash then currentHeader else x.hash;
        SameHeight(headers, oldIndex, oldHead, x.hash);
      }
      NoDuplicateTxs(headers, bodies, x.hash);
      var listed := WriteTxLookupEntries(lookup, x.hash, x.number, bodies[x.hash]);
      if x.parent == oldHead {
        Parent(headers, genesis, x.hash);
        ExtendHead(headers, bodies, index, lookup, oldHead, x, listed);
        NotYetIndexed(headers, index, oldHead, x);
      } else {
        TopEntry(headers, index, x.hash);
        RewriteHead(bodies, index, lookup, x.hash, x.number, listed);
        assert index[x.number := x.hash] == index;
      }
      lookup := listed;
      Insert(x.hash);
    }

    /******* The ways a full node extends the chain *******/

    /** `processBlock` and, with no witness and no transactions, `ProcessEmptyBlock`: a delivered block at `number`.
        Its parent is the canonical block below. */
    method ProcessBlock(number: nat, x: Execution, currentPreserve: bool, blockPreserve: bool, coin: bool)
      returns (r: ProcessResult)
      requires Valid() && Linear() && number > 0
      requires x.Executed? && number - 1 in index ==> Admissible(Header(x.hash, number, index[number - 1], 1), x.txs)
      modifies this
      ensures Valid() && Linear() && Grows(old(index), index)
      ensures r == if x.BadWitness? then WitnessRefused
                   else if number - 1 !in old(index) then ParentMissing
                   else if x.BadTransaction? then ExecutionFailed
                   else if number !in old(index) then Stored
                   else if old(index)[number] == x.hash then AlreadyThere else HashMismatch
      ensures r.Stored? ==> index == old(index)[number := x.hash] && currentBlock == x.hash
      ensures !r.Stored? ==> index == old(index) && currentBlock == old(currentBlock) && headers == old(headers)
    {
      if x.BadWitness? {
        return WitnessRefused;
      }
      if number - 1 !in index {
        return ParentMissing;
      }
      if x.BadTransaction? {
        return ExecutionFailed;
      }
      if number in index {
        return if index[number] != x.hash then HashMismatch else AlreadyThere;
      }
      assert EntryOk(headers, index, number - 1);
      r := AppendBlock(Header(x.hash, number, index[number - 1], 1), x.txs, currentPreserve, blockPreserve, coin);
    }

    /** Writing a block at a free number on top of a stored parent: with no side chains the parent is the
        head, so the fork choice makes the block canonical and the "fork found" branches are dead. */
    method AppendBlock(x: Header, txs: seq<Hash>, currentPreserve: bool, blockPreserve: bool, coin: bool)
      returns (r: ProcessResult)
      requires Valid() && Linear() && Admissible(x, txs)
      requires x.parent in headers && x.number !in index
      modifies this
      ensures Valid() && Linear() && Grows(old(index), index) && r == Stored
      ensures headers == old(headers)[x.hash := x] && bodies == old(bodies)[x.hash := txs]
      ensures index == old(index)[x.number := x.hash] && currentBlock == x.hash
    {
      ParentIsHead(headers, index, currentBlock, x);
      var status := WriteBlockWithState(x, txs, currentPreserve, blockPreserve, coin);
      match status {
        case CanonStatTy => r := Stored;
        case SideStatTy => r := ForkFound;
        case NonStatTy => r := ParentMissing;
      }
      assert forall h :: h in headers ==> headers[h].number in index && index[headers[h].number] == h;
    }

    /** `insertTangerineChain`, with the outcome of header verification and state validation given for each
        block. It panics only on a fork, and there is none. `states` holds what the import has made of the chain
        before each block it handles and at the end. */
    method InsertTangerineChain(chain: seq<ChainItem>, future: set<Hash>, ghost all: Headers, ghost allBodies: Bodies,
                                currentPreserve: bool, blockPreserve: bool, coin: bool)
      returns (n: nat, ok: bool, panicked: bool, future': set<Hash>, ghost states: seq<Import>)
      requires Valid() && Linear()
      requires Universe(all, allBodies, genesis) && Within(headers, bodies, all, allBodies)
      requires forall i :: 0 <= i < |chain| && chain[i].check.Passed? && chain[i].header.parent in all ==>
                 FromUniverse(chain[i], all, allBodies)
      modifies this
      ensures Valid() && Linear() && Grows(old(index), index) && Within(headers, bodies, all, allBodies)
      ensures !panicked && n <= |chain| && future <= future'
      ensures ok ==> Contiguous(chain) && forall i :: 0 <= i < |chain| ==> Handled(headers, index, future', chain[i])
      ensures !ok && Contiguous(chain) ==> n < |chain| && Refused(headers, future', chain[n])
      ensures Imported(chain, states) && states[0] == Import(old(headers), old(index), old(currentBlock), future)
      ensures states[|states| - 1] == Import(headers, index, currentBlock, future')
      ensures !Contiguous(chain) ==> !ok && n == 0 && |states| == 1
      ensures Contiguous(chain) ==> |states| == (if ok then |chain| else n) + 1
      ensures Contiguous(chain) && !ok ==> n < |chain| && Stops(states[n], chain[n])
    {
      hide Valid, Linear, Universe, Within;
      n, ok, panicked, future' := 0, true, false, future;
      states := [Import(headers, index, currentBlock, future)];
      if chain == [] {
        return;
      }
      for i := 1 to |chain|
        invariant forall j :: 1 <= j < i ==> Follows(chain, j)
      {
        if chain[i].header.number != chain[i - 1].header.number + 1 ||
           chain[i].header.parent != chain[i - 1].header.hash {
          ok := false;
          assert !Follows(chain, i);
          return;
        }
      }
      for i := 0 to |chain|
        invariant Valid() && Linear() && Grows(old(index), index) && Within(headers, bodies, all, allBodies)
        invariant !panicked && n <= |chain| && ok && future <= future'
        invariant forall j :: 0 <= j < i ==> Handled(headers, index, future', chain[j])
        invariant |states| == i + 1 && Imported(chain, states)
        invariant states[0] == Import(old(headers), old(index), old(currentBlock), future)
        invariant states[i] == Import(headers, index, currentBlock, future')
      {
        var x, txs := chain[i].header, chain[i].txs;
        if chain[i].check.BadHeader? {
          return i, false, false, future', states;
        }
        if chain[i].check.Early? {
          future' := future' + {x.hash};
          states := states + [Import(headers, index, currentBlock, future')];
          continue;
        }
        var r, stop := InsertOne(x, txs, chain[i].check.BadState?, future', all, allBodies, currentPreserve,
                                 blockPreserve, coin);
        n := i;
        panicked := r.ForkFound?;
        if panicked {
          return;
        }
        if r.ParentMissing? && x.parent in future' {
          future' := future' + {x.hash};
        } else if stop {
          return i, false, false, future', states;
        }
        states := states + [Import(headers, index, currentBlock, future')];
      }
      n := 0;
    }

    /** One iteration, from the "already known" test to the write. */
    method InsertOne(x: Header, txs: seq<Hash>, badState: bool, future: set<Hash>, ghost all: Headers,
                     ghost allBodies: Bodies, currentPreserve: bool, blockPreserve: bool, coin: bool)
      returns (r: ProcessResult, stop: bool)
      requires Valid() && Linear()
      requires Universe(all, allBodies, genesis) && Within(headers, bodies, all, allBodies)
      requires !badState && x.parent in all ==>
                 x.hash in all && all[x.hash] == x && x.hash in allBodies && allBodies[x.hash] == txs
      modifies this
      ensures Valid() && Linear() && Grows(old(index), index) && Within(headers, bodies, all, allBodies)
      ensures r.Stored? <==> x.parent in old(headers) && x.hash !in old(headers) && !badState && x.number !in old(index)
      ensures r.Stored? ==> index == old(index)[x.number := x.hash]
      ensures !r.Stored? ==> index == old(index) && headers == old(headers)
      ensures r.Stored? ==> headers == old(headers)[x.hash := x] && currentBlock == x.hash
      ensures !r.Stored? ==> currentBlock == old(currentBlock)
      ensures r.AlreadyThere? <==> x.hash in old(headers)
      ensures r.HashMismatch? <==>
                x.hash !in old(headers) && x.parent in old(headers) && (badState || x.number in old(index))
      ensures !r.ForkFound? && !r.WitnessRefused? && !r.ExecutionFailed?
      ensures r.AlreadyThere? ==> x.hash in headers
      ensures r.ParentMissing? <==> x.hash !in old(headers) && x.parent !in old(headers)
      ensures r.HashMismatch? ==> badState || (x.number in index && index[x.number] != x.hash)
      ensures stop <==> r.ParentMissing? || (r.HashMismatch? && badState)
    {
      if x.hash in headers {
        return AlreadyThere, false;
      }
      if x.parent !in headers {
        return ParentMissing, true;
      }
      if badState {
        return HashMismatch, true;
      }
      if x.number in index {
        assert EntryOk(headers, index, x.number);
        return if index[x.number] == x.hash then AlreadyThere else HashMismatch, false;
      }
      UniverseAdmits(headers, bodies, genesis, all, allBodies, x);
      r := AppendBlock(x, txs, currentPreserve, blockPreserve, coin);
      WithinGrows(old(headers), old(bodies), all, allBodies, x);
      stop := false;
    }
  }

  /** A block with the outcome of the checks that need execution or signatures. */
  datatype Check = Passed | BadHeader | Early | BadState
  datatype ChainItem = ChainItem(header: Header, txs: seq<Hash>, check: Check)

  ghost predicate Follows(chain: seq<ChainItem>, i: nat)
    requires 0 < i < |chain|
  {
    chain[i].header.number == chain[i - 1].header.number + 1 && chain[i].header.parent == chain[i - 1].header.hash
  }

  ghost predicate Contiguous(chain: seq<ChainItem>) {
    forall i :: 1 <= i < |chain| ==> Follows(chain, i)
  }

  /** After a successful import every block is stored, put aside for later, or its number was taken before. */
  ghost predicate Handled(headers: Headers, index: Index, future: set<Hash>, item: ChainItem) {
    || item.header.hash in headers || item.header.hash in future
    || (item.header.number in index && index[item.header.number] != item.header.hash)
  }

  /** Why an import stops at a block: a bad header or state, or a parent neither stored nor put aside. */
  ghost predicate Refused(headers: Headers, future: set<Hash>, item: ChainItem) {
    item.check.BadHeader? || item.check.BadState? || (item.header.parent !in headers && item.header.parent !in future)
  }

  /** What an import works on: the stored headers, the index, the head and the blocks put aside. */
  datatype Import = Import(headers: Headers, index: Index, head: Hash, future: set<Hash>)

  /** What handling one block does: an early block, or one on a parent that is only put aside, is put aside; a known
      one, or one whose number is taken, changes nothing; any other is stored and becomes the head. */
  ghost predicate ImportStep(a: Import, item: ChainItem, b: Import) {
    var x := item.header;
    !item.check.BadHeader? &&
    if item.check.Early? then b == a.(future := a.future + {x.hash})
    else if x.hash in a.headers then b == a
    else if x.parent !in a.headers then x.parent in a.future && b == a.(future := a.future + {x.hash})
    else
      item.check.Passed? &&
      if x.number in a.index then b == a
      else b == Import(a.headers[x.hash := x], a.index[x.number := x.hash], x.hash, a.future)
  }

  /** Where the import stops: at a bad header, at a new block whose parent is neither stored nor put aside, or at a
      new block on a stored parent whose state is bad. */
  ghost predicate Stops(a: Import, item: ChainItem) {
    var x := item.header;
    || item.check.BadHeader?
    || (!item.check.Early? && x.hash !in a.headers &&
        if x.parent !in a.headers then x.parent !in a.future else item.check.BadState?)
  }

  ghost predicate Imported(chain: seq<ChainItem>, states: seq<Import>) {
    && 0 < |states| <= |chain| + 1
    && forall i :: 0 <= i < |states| - 1 ==> ImportStep(states[i], chain[i], states[i + 1])
  }

  /** A block handled is never one the import stops at. */
  lemma StopsOrSteps(a: Import, item: ChainItem, b: Import)
    requires ImportStep(a, item, b)
    ensures !Stops(a, item)
  {
  }

  /** A hash is put aside only for an early block, or for one whose parent is put aside and not stored. */
  lemma {:induction false} PutAsideOnlyWhen(chain: seq<ChainItem>, states: seq<Import>, h: Hash)
    requires Imported(chain, states) && h in states[|states| - 1].future && h !in states[0].future
    ensures exists i :: 0 <= i < |states| - 1 && chain[i].header.hash == h &&
              (chain[i].check.Early? ||
               (chain[i].header.parent in states[i].future && chain[i].header.parent !in states[i].headers))
    decreases |states|
  {
    var k := |states| - 2;
    assert ImportStep(states[k], chain[k], states[k + 1]);
    if h in states[k].future {
      PutAsideOnlyWhen(chain, states[..k + 1], h);
      var i :| 0 <= i < k && chain[i].header.hash == h &&
        (chain[i].check.Early? ||
         (chain[i].header.parent in states[..k + 1][i].future &&
          chain[i].header.parent !in states[..k + 1][i].headers));
      assert states[..k + 1][i] == states[i];
    }
  }

  /** One of the first `k` blocks has the hash, or the number. */
  ghost predicate HashAmong(chain: seq<ChainItem>, k: nat, h: Hash) {
    exists i :: 0 <= i < k && i < |chain| && chain[i].header.hash == h
  }

  ghost predicate NumberAmong(chain: seq<ChainItem>, k: nat, n: nat) {
    exists i :: 0 <= i < k && i < |chain| && chain[i].header.number == n
  }

  /** The first `k` blocks are stored and canonical, the last of them is the head, and nothing else has changed. */
  ghost predicate Appended(chain: seq<ChainItem>, k: nat, a: Import, b: Import)
    requires k <= |chain|
  {
    && b.future == a.future && b.head == (if k == 0 then a.head else chain[k - 1].header.hash)
    && (forall h :: h in b.headers <==> h in a.headers || HashAmong(chain, k, h))
    && (forall n :: n in b.index <==> n in a.index || NumberAmong(chain, k, n))
    && (forall i :: 0 <= i < k ==>
          chain[i].header.number in b.index && b.index[chain[i].header.number] == chain[i].header.hash)
  }

  /** New blocks, valid, on a stored parent, at free numbers; equal hashes mean equal blocks. */
  ghost predicate NewBatch(chain: seq<ChainItem>, a: Import) {
    && Contiguous(chain) && (chain != [] ==> chain[0].header.parent in a.headers)
    && (forall i :: 0 <= i < |chain| ==>
          && chain[i].check.Passed? && chain[i].header.hash !in a.headers && chain[i].header.number !in a.index)
    && (forall i, j :: 0 <= i < j < |chain| ==> chain[i].header.hash != chain[j].header.hash)
  }

  /** Such a batch is appended as a whole. */
  lemma {:induction false} BatchIsAppended(chain: seq<ChainItem>, states: seq<Import>, k: nat)
    requires Imported(chain, states) && NewBatch(chain, states[0]) && k < |states|
    ensures Appended(chain, k, states[0], states[k])
    decreases k
  {
    hide Appended, NewBatch, ImportStep;
    if k == 0 {
      NothingAppended(chain, states[0]);
    } else {
      BatchIsAppended(chain, states, k - 1);
      assert ImportStep(states[k - 1], chain[k - 1], states[k]);
      AppendsOne(chain, k - 1, states[0], states[k - 1], states[k]);
    }
  }

  lemma NothingAppended(chain: seq<ChainItem>, a: Import)
    ensures Appended(chain, 0, a, a)
  {
  }

  lemma AppendsOne(chain: seq<ChainItem>, k: nat, a: Import, b: Import, c: Import)
    requires k < |chain| && NewBatch(chain, a) && Appended(chain, k, a, b) && ImportStep(b, chain[k], c)
    ensures Appended(chain, k + 1, a, c)
  {
    hide HashAmong, NumberAmong, NewBatch;
    var x := chain[k].header;
    FreshHere(chain, k, a);
    ParentThere(chain, k, a, b);
    assert c == Import(b.headers[x.hash := x], b.index[x.number := x.hash], x.hash, b.future);
    forall v: nat
      ensures HashAmong(chain, k + 1, v) <==> HashAmong(chain, k, v) || v == x.hash
      ensures NumberAmong(chain, k + 1, v) <==> NumberAmong(chain, k, v) || v == x.number
    {
      AmongSnoc(chain, k, v);
    }
    forall i | 0 <= i < k
      ensures chain[i].header.number != x.number
    {
      NumbersApart(chain, k, a, i);
    }
  }

  lemma NumbersApart(chain: seq<ChainItem>, k: nat, a: Import, i: nat)
    requires i < k < |chain| && NewBatch(chain, a)
    ensures chain[i].header.number != chain[k].header.number
  {
    NumbersAscend(chain, k);
  }

  lemma FreshHere(chain: seq<ChainItem>, k: nat, a: Import)
    requires k < |chain| && NewBatch(chain, a)
    ensures var x := chain[k].header;
            && chain[k].check.Passed? && x.hash !in a.headers && x.number !in a.index
            && !HashAmong(chain, k, x.hash) && !NumberAmong(chain, k, x.number)
  {
    NumbersAscend(chain, k);
  }

  lemma AmongSnoc(chain: seq<ChainItem>, k: nat, v: nat)
    requires k < |chain|
    ensures HashAmong(chain, k + 1, v) <==> HashAmong(chain, k, v) || v == chain[k].header.hash
    ensures NumberAmong(chain, k + 1, v) <==> NumberAmong(chain, k, v) || v == chain[k].header.number
  {
  }

  lemma ParentThere(chain: seq<ChainItem>, k: nat, a: Import, b: Import)
    requires k < |chain| && NewBatch(chain, a) && Appended(chain, k, a, b)
    ensures chain[k].header.parent in b.headers
  {
    if k > 0 {
      assert Follows(chain, k);
      assert HashAmong(chain, k, chain[k - 1].header.hash);
    }
  }

  lemma {:induction false} NumbersAscend(chain: seq<ChainItem>, k: nat)
    requires Contiguous(chain) && k < |chain|
    ensures forall i :: 0 <= i < k ==> chain[i].header.number < chain[k].header.number
    decreases k
  {
    if k > 0 {
      assert Follows(chain, k);
      NumbersAscend(chain, k - 1);
    }
  }

  /** A number once assigned keeps its hash. */
  ghost predicate Grows(index: Index, index': Index) {
    forall n :: n in index ==> n in index' && index'[n] == index[n]
  }

  /** All blocks that ever show up: hashes do not collide, numbers follow parents, and no chain repeats a
      transaction. */
  ghost predicate Universe(all: Headers, allBodies: Bodies, genesis: Hash) {
    && Tree(all, genesis) && UnitDifficulty(all, genesis)
    && allBodies.Keys == all.Keys && NoRepeats(all, allBodies)
  }

  ghost predicate FromUniverse(item: ChainItem, all: Headers, allBodies: Bodies) {
    var h := item.header.hash;
    h in all && all[h] == item.header && h in allBodies && allBodies[h] == item.txs
  }

  ghost predicate Within(headers: Headers, bodies: Bodies, all: Headers, allBodies: Bodies) {
    forall h :: h in headers ==>
      h in all && headers[h] == all[h] && h in bodies && h in allBodies && bodies[h] == allBodies[h]
  }

  lemma WithinGrows(headers: Headers, bodies: Bodies, all: Headers, allBodies: Bodies, x: Header)
    requires Within(headers, bodies, all, allBodies) && x.hash in all && all[x.hash] == x && x.hash in allBodies
    ensures Within(headers[x.hash := x], bodies[x.hash := allBodies[x.hash]], all, allBodies)
  {
  }

  lemma {:induction false} UpWithin(headers: Headers, genesis: Hash, bodies: Bodies, all: Headers, allBodies: Bodies,
                                    h: Hash, k: nat)
    requires Tree(headers, genesis) && Within(headers, bodies, all, allBodies) && h in headers && k <= headers[h].number
    ensures Up(headers, h, k) == Up(all, h, k)
    decreases k
  {
    if k > 0 {
      ParentStep(headers, genesis, h);
      UpWithin(headers, genesis, bodies, all, allBodies, headers[h].parent, k - 1);
    }
  }

  lemma UniverseAdmits(headers: Headers, bodies: Bodies, genesis: Hash, all: Headers, allBodies: Bodies, x: Header)
    requires Tree(headers, genesis) && bodies.Keys == headers.Keys
    requires Universe(all, allBodies, genesis) && Within(headers, bodies, all, allBodies)
    requires x.hash in all && all[x.hash] == x && x.hash !in headers && x.parent in headers
    ensures x.hash != ZERO_HASH && x.difficulty == 1 && x.number == headers[x.parent].number + 1
    ensures FreshTxs(headers, bodies, x.parent, allBodies[x.hash])
  {
    assert NodeOk(all, genesis, x.hash) && x.hash != genesis;
    assert NoDuplicates(allBodies[x.hash]);
    forall k: nat | k <= headers[x.parent].number
      ensures var u := Up(headers, x.parent, k);
              u.Some? && u.value in bodies ==> Disjoint(allBodies[x.hash], bodies[u.value])
    {
      UpWithin(headers, genesis, bodies, all, allBodies, x.parent, k);
      UpStaysInTree(headers, genesis, x.parent, k);
      assert ApartFrom(all, allBodies, x.hash, k + 1);
    }
  }

  /** With no side chains, a stored parent of a block at a free number is the head. */
  lemma ParentIsHead(headers: Headers, index: Index, top: Hash, x: Header)
    requires Canonical(headers, index, top) && x.parent in headers
    requires headers[x.parent].number in index && index[headers[x.parent].number] == x.parent
    requires x.number == headers[x.parent].number + 1 && x.number !in index
    ensures x.parent == top
  {
    assert x.number <= headers[top].number ==> EntryOk(headers, index, x.number);
  }

  lemma CanonicalHead(headers: Headers, index: Index, top: Hash)
    requires Canonical(headers, index, top)
    ensures top in headers
  {
  }

  lemma NoDuplicateTxs(headers: Headers, bodies: Bodies, h: Hash)
    requires NoRepeats(headers, bodies) && h in bodies
    ensures NoDuplicates(bodies[h])
  {
  }

  lemma Parent(headers: Headers, genesis: Hash, h: Hash)
    requires Tree(headers, genesis) && h in headers && h != genesis
    ensures Attached(headers, headers[h])
  {
    assert NodeOk(headers, genesis, h);
  }

  lemma TopEntry(headers: Headers, index: Index, top: Hash)
    requires Canonical(headers, index, top)
    ensures headers[top].number in index && index[headers[top].number] == top
  {
  }

  lemma NotYetIndexed(headers: Headers, index: Index, top: Hash, x: Header)
    requires Canonical(headers, index, top) && x.number == headers[top].number + 1
    ensures x.number !in index
  {
  }

  /** A canonical block at least as high as the head is the head. */
  lemma SameHeight(headers: Headers, index: Index, top: Hash, h: Hash)
    requires Canonical(headers, index, top) && h in headers && headers[h].number >= headers[top].number
    ensures headers[h].number in index && index[headers[h].number] == h ==> h == top
  {
  }
}
