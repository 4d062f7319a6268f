/**
 The canonical chain of the block database: the number-to-hash index, the transaction lookup, the total
 difficulties and the head markers, kept consistent with the ancestry of one head block.
 */
module CanonicalChain {
  import opened Ancestry
  import opened Wrappers

  // -------------------------------------------------------------------------
  // What the indexes mean
  // -------------------------------------------------------------------------

  /** Up to the head, the hash at each number is that of the head's ancestor. */
  ghost predicate CanonPrefix(db: Store, canon: map<nat, Hash>, head: Block) {
    forall n {:trigger canon[n]} {:trigger n in canon} :: 0 <= n <= head.number ==>
      n in canon && Ancestor(db, head, n).Some? && canon[n] == Ancestor(db, head, n).value.hash
  }

  ghost predicate NoneAbove(canon: map<nat, Hash>, n: nat) {
    forall k :: k in canon ==> k <= n
  }

  /** The numbers in the index have no gaps. */
  ghost predicate Contiguous(canon: map<nat, Hash>) {
    forall k, n :: n in canon && 0 <= k < n ==> k in canon
  }

  ghost predicate OnBranch(db: Store, head: Block, n: nat, tx: Tx) {
    Ancestor(db, head, n).Some? && tx in Ancestor(db, head, n).value.txs
  }

  /** No transaction occurs twice on the branch, as account nonces ensure. */
  ghost predicate UniqueTxs(db: Store, head: Block) {
    forall m, n, tx :: OnBranch(db, head, m, tx) && OnBranch(db, head, n, tx) ==> m == n
  }

  /** The lookup maps exactly the branch's transactions, each to the number of its block. */
  ghost predicate LookupExact(db: Store, lookup: map<Tx, nat>, head: Block) {
    && (forall tx :: tx in lookup ==> OnBranch(db, head, lookup[tx], tx))
    && (forall n, tx :: OnBranch(db, head, n, tx) ==> tx in lookup && lookup[tx] == n)
  }

  /** Every stored block has its total difficulty recorded, and a complete ancestry. */
  ghost predicate Ledger(db: Store, td: map<Hash, nat>) {
    && td.Keys == db.Keys
    && forall h :: h in td ==> Rooted(db, db[h]) && td[h] == TotalDifficulty(db, db[h])
  }

  /** Only one block has number zero, and it has no parent. */
  ghost predicate OneGenesis(db: Store, genesis: Block) {
    && genesis.number == 0
    && genesis.parent == NO_HASH
    && Stored(db, genesis)
    && forall h :: h in db && db[h].number == 0 ==> db[h] == genesis
  }

  // -------------------------------------------------------------------------
  // Branch segments
  // -------------------------------------------------------------------------

  /** chain holds the ancestors of start from start downwards; below is the one after them. */
  ghost predicate Walk(db: Store, start: Block, chain: seq<Block>, below: Block) {
    && |chain| + below.number == start.number
    && Ancestor(db, start, below.number) == Some(below)
    && forall i {:trigger chain[i]} :: 0 <= i < |chain| ==> Ancestor(db, start, start.number - i) == Some(chain[i])
  }

  ghost function TxsOf(chain: seq<Block>): set<Tx> {
    set i, tx | 0 <= i < |chain| && tx in chain[i].txs :: tx
  }

  /** A segment starts with the block it belongs to. */
  lemma NewestFirst(db: Store, start: Block, chain: seq<Block>, below: Block)
    requires Walk(db, start, chain, below)
    ensures chain == [] ==> below == start
    ensures |chain| >= 1 ==> chain[0] == start
    ensures |chain| >= 2 ==> chain[1].number == start.number - 1
  {
    if |chain| >= 1 {
      WalkAt(db, start, chain, below, start.number);
    }
    if |chain| >= 2 {
      WalkAt(db, start, chain, below, start.number - 1);
    }
  }

  lemma WalkStep(db: Store, start: Block, chain: seq<Block>, below: Block)
    requires Walk(db, start, chain, below) && Parent(db, below).Some?
    ensures Walk(db, start, chain + [below], Parent(db, below).value)
  {
    AncestorStep(db, start, below.number, below.number - 1);
  }

  function WithTxs(lookup: map<Tx, nat>, b: Block): map<Tx, nat> {
    lookup + map tx | tx in b.txs :: b.number
  }

  /** The lookup after the blocks of a newest-first segment were written oldest first. */
  ghost function Indexed(lookup: map<Tx, nat>, chain: seq<Block>): map<Tx, nat> {
    if chain == [] then lookup else WithTxs(Indexed(lookup, chain[1..]), chain[0])
  }

  ghost function Tail(chain: seq<Block>): seq<Block> {
    if chain == [] then [] else chain[1..]
  }

  lemma {:induction false} IndexedElsewhere(lookup: map<Tx, nat>, chain: seq<Block>, tx: Tx)
    requires tx !in TxsOf(chain)
    ensures tx in Indexed(lookup, chain) <==> tx in lookup
    ensures tx in lookup ==> Indexed(lookup, chain)[tx] == lookup[tx]
  {
    if chain != [] {
      assert tx !in chain[0].txs;
      assert forall i :: 0 <= i < |chain[1..]| ==> chain[1..][i] == chain[i + 1];
      IndexedElsewhere(lookup, chain[1..], tx);
    }
  }

  lemma {:induction false} IndexedAt(lookup: map<Tx, nat>, chain: seq<Block>, i: nat, tx: Tx)
    requires i < |chain| && tx in chain[i].txs
    requires forall j :: 0 <= j < |chain| && tx in chain[j].txs ==> j == i
    ensures tx in Indexed(lookup, chain) && Indexed(lookup, chain)[tx] == chain[i].number
  {
    if i > 0 {
      assert forall j :: 0 <= j < |chain[1..]| ==> chain[1..][j] == chain[j + 1];
      IndexedAt(lookup, chain[1..], i - 1, tx);
    }
  }

  // -------------------------------------------------------------------------
  // Switching between branches
  // -------------------------------------------------------------------------

  /** Below the common ancestor the two branches are one. */
  lemma SharedBelow(db: Store, a: Block, b: Block, chainA: seq<Block>, chainB: seq<Block>, common: Block, n: nat)
    requires Walk(db, a, chainA, common) && Walk(db, b, chainB, common) && n <= common.number
    ensures Ancestor(db, a, n) == Ancestor(db, b, n)
  {
    AncestorStep(db, a, common.number, n);
    AncestorStep(db, b, common.number, n);
  }

  /** A transaction of a branch is either in its segment above the common ancestor or below. */
  lemma BranchSplit(db: Store, head: Block, chain: seq<Block>, common: Block, n: nat, tx: Tx)
    requires Walk(db, head, chain, common) && OnBranch(db, head, n, tx)
    ensures n <= common.number ||
            (common.number < n <= head.number && chain[head.number - n].number == n && tx in chain[head.number - n].txs)
  {
    if n > common.number {
      var i := head.number - n;
      assert Ancestor(db, head, head.number - i) == Some(chain[i]);
    }
  }

  lemma SegmentOnBranch(db: Store, head: Block, chain: seq<Block>, common: Block, i: nat, tx: Tx)
    requires Walk(db, head, chain, common) && i < |chain| && tx in chain[i].txs
    ensures OnBranch(db, head, head.number - i, tx) && head.number - i > common.number
  {
    assert Ancestor(db, head, head.number - i) == Some(chain[i]);
  }

  /** The lookup that a reorganization leaves, once the head's own transactions are written. */
  ghost function SwitchedLookup(lookup: map<Tx, nat>, dropped: seq<Block>, added: seq<Block>, head: Block): map<Tx, nat> {
    WithTxs(Indexed(lookup, Tail(added)) - (TxsOf(dropped) - TxsOf(Tail(added))), head)
  }

  lemma IsSwitchedLookup(lookup: map<Tx, nat>, dropped: seq<Block>, added: seq<Block>, head: Block)
    ensures SwitchedLookup(lookup, dropped, added, head)
            == WithTxs(Indexed(lookup, Tail(added)) - (TxsOf(dropped) - TxsOf(Tail(added))), head)
  {
  }

  /** A transaction at or below the common ancestor is not in the segment above it. */
  lemma NotInSegment(db: Store, head: Block, chain: seq<Block>, common: Block, n: nat, tx: Tx)
    requires Walk(db, head, chain, common) && UniqueTxs(db, head) && OnBranch(db, head, n, tx) && n <= common.number
    ensures tx !in TxsOf(chain) && tx !in TxsOf(Tail(chain))
  {
    forall i | 0 <= i < |chain| ensures tx !in chain[i].txs {
      if tx in chain[i].txs {
        SegmentOnBranch(db, head, chain, common, i, tx);
      }
    }
  }

  lemma SwitchedLookupForward(db: Store, lookup: map<Tx, nat>, prev: Block, head: Block,
                              dropped: seq<Block>, added: seq<Block>, common: Block, n: nat, tx: Tx)
    requires Walk(db, prev, dropped, common) && Walk(db, head, added, common)
    requires LookupExact(db, lookup, prev) && UniqueTxs(db, prev) && UniqueTxs(db, head)
    requires OnBranch(db, head, n, tx)
    ensures var l := SwitchedLookup(lookup, dropped, added, head); tx in l && l[tx] == n
  {
    BranchSplit(db, head, added, common, n, tx);
    if tx in head.txs {
      assert OnBranch(db, head, head.number, tx);
    } else if n <= common.number {
      SharedBelow(db, prev, head, dropped, added, common, n);
      assert OnBranch(db, prev, n, tx);
      NotInSegment(db, prev, dropped, common, n, tx);
      NotInSegment(db, head, added, common, n, tx);
      assert tx !in TxsOf(Tail(added));
      IndexedElsewhere(lookup, Tail(added), tx);
    } else {
      var i := head.number - n;
      forall j | 0 <= j < |added| && tx in added[j].txs ensures j == i {
        SegmentOnBranch(db, head, added, common, j, tx);
      }
      assert added[0] == head by { assert Ancestor(db, head, head.number - 0) == Some(added[0]); }
      assert i > 0 && Tail(added)[i - 1] == added[i];
      assert tx in TxsOf(Tail(added));
      IndexedAt(lookup, Tail(added), i - 1, tx);
    }
  }

  lemma SwitchedLookupBackward(db: Store, lookup: map<Tx, nat>, prev: Block, head: Block,
                               dropped: seq<Block>, added: seq<Block>, common: Block, tx: Tx)
    requires Walk(db, prev, dropped, common) && Walk(db, head, added, common)
    requires LookupExact(db, lookup, prev) && UniqueTxs(db, prev) && UniqueTxs(db, head)
    requires tx in SwitchedLookup(lookup, dropped, added, head)
    ensures exists n :: OnBranch(db, head, n, tx)
  {
    if tx in head.txs {
      assert OnBranch(db, head, head.number, tx);
    } else if tx in TxsOf(Tail(added)) {
      var i :| 0 <= i < |Tail(added)| && tx in Tail(added)[i].txs;
      SegmentOnBranch(db, head, added, common, i + 1, tx);
    } else {
      IndexedElsewhere(lookup, Tail(added), tx);
      var n := lookup[tx];
      assert OnBranch(db, prev, n, tx);
      BranchSplit(db, prev, dropped, common, n, tx);
      assert tx !in TxsOf(dropped);
      assert n <= common.number;
      SharedBelow(db, prev, head, dropped, added, common, n);
      assert OnBranch(db, head, n, tx);
    }
  }

  /** Transactions on both branches, only on the old one, only on the new one, and in the new head all come out right. */
  lemma LookupFollowsSwitch(db: Store, lookup: map<Tx, nat>, prev: Block, head: Block,
                            dropped: seq<Block>, added: seq<Block>, common: Block)
    requires Walk(db, prev, dropped, common) && Walk(db, head, added, common)
    requires LookupExact(db, lookup, prev) && UniqueTxs(db, prev) && UniqueTxs(db, head)
    ensures LookupExact(db, SwitchedLookup(lookup, dropped, added, head), head)
  {
    var l := SwitchedLookup(lookup, dropped, added, head);
    forall n, tx | OnBranch(db, head, n, tx) ensures tx in l && l[tx] == n {
      SwitchedLookupForward(db, lookup, prev, head, dropped, added, common, n, tx);
    }
    forall tx | tx in l ensures OnBranch(db, head, l[tx], tx) {
      SwitchedLookupBackward(db, lookup, prev, head, dropped, added, common, tx);
    }
  }

  /** The new branch overwrites the index above the common ancestor, and everything above `cut` is deleted. */
  ghost predicate CanonSwitched(db: Store, canon: map<nat, Hash>, canon': map<nat, Hash>, head: Block, common: Block, cut: nat) {
    && (forall n :: n in canon' <==> n <= cut && (n in canon || common.number < n < head.number))
    && (forall n :: n in canon' ==>
          if common.number < n < head.number
          then Ancestor(db, head, n).Some? && canon'[n] == Ancestor(db, head, n).value.hash
          else n in canon && canon'[n] == canon[n])
  }

  /** The first `count` blocks of the new branch above the common ancestor are in the index. */
  ghost predicate CanonWritten(db: Store, canon: map<nat, Hash>, canon': map<nat, Hash>, head: Block, common: Block, count: int) {
    && (forall n :: n in canon' <==> n in canon || common.number < n <= common.number + count)
    && (forall n :: n in canon' ==>
          if common.number < n <= common.number + count
          then Ancestor(db, head, n).Some? && canon'[n] == Ancestor(db, head, n).value.hash
          else canon'[n] == canon[n])
  }

  lemma CanonWrittenContiguous(db: Store, canon: map<nat, Hash>, canon': map<nat, Hash>, head: Block, common: Block, count: int)
    requires CanonWritten(db, canon, canon', head, common, count) && Contiguous(canon) && common.number in canon
    ensures Contiguous(canon')
  {
  }

  /** Writing the next block of the new branch, which is not yet in the index at its number. */
  lemma BranchStep(db: Store, canon: map<nat, Hash>, canon': map<nat, Hash>, prev: Block, head: Block,
                   dropped: seq<Block>, added: seq<Block>, common: Block, k: nat)
    requires WellFormed(db) && Stored(db, prev) && Stored(db, head)
    requires Walk(db, prev, dropped, common) && Walk(db, head, added, common) && k < |added|
    requires dropped != [] && added != [] ==> dropped[|dropped| - 1].hash != added[|added| - 1].hash
    requires CanonPrefix(db, canon, prev)
    requires CanonWritten(db, canon, canon', head, common, |added| - k - 1)
    ensures CanonWritten(db, canon, canon'[added[k].number := added[k].hash], head, common, |added| - k)
    ensures NoneAbove(canon, prev.number) ==> !(added[k].number in canon' && canon'[added[k].number] == added[k].hash)
  {
    var n := head.number - k;
    WalkAt(db, head, added, common, n);
    if n <= prev.number {
      BranchesDiffer(db, prev, head, dropped, added, common, n);
    }
  }

  /** After a switch and the final head write, the index is the ancestry of the new head. */
  lemma CanonFollowsSwitch(db: Store, canon: map<nat, Hash>, canon': map<nat, Hash>, prev: Block, head: Block,
                           dropped: seq<Block>, added: seq<Block>, common: Block, cut: nat)
    requires Walk(db, prev, dropped, common) && Walk(db, head, added, common)
    requires CanonPrefix(db, canon, prev) && Contiguous(canon) && Rooted(db, head)
    requires CanonSwitched(db, canon, canon', head, common, cut)
    requires cut == (if |added| >= 2 then head.number - 1 else prev.number)
    ensures CanonPrefix(db, canon'[head.number := head.hash], head)
    ensures Contiguous(canon'[head.number := head.hash])
    ensures NoneAbove(canon'[head.number := head.hash], if cut < head.number then head.number else cut)
  {
    var final := canon'[head.number := head.hash];
    forall n | 0 <= n <= head.number
      ensures n in final && Ancestor(db, head, n).Some? && final[n] == Ancestor(db, head, n).value.hash
    {
      RootedAll(db, head, n);
      if n < head.number && n <= common.number {
        SharedBelow(db, prev, head, dropped, added, common, n);
      }
    }
  }

  /** Above the nearest common ancestor the two branches share no block. */
  lemma BranchesDiffer(db: Store, a: Block, b: Block, chainA: seq<Block>, chainB: seq<Block>, common: Block, n: nat)
    requires WellFormed(db) && Stored(db, a) && Stored(db, b)
    requires Walk(db, a, chainA, common) && Walk(db, b, chainB, common)
    requires chainA != [] && chainB != [] ==> chainA[|chainA| - 1].hash != chainB[|chainB| - 1].hash
    requires common.number < n <= a.number && n <= b.number
    ensures Ancestor(db, a, n).Some? && Ancestor(db, b, n).Some?
    ensures Ancestor(db, a, n).value.hash != Ancestor(db, b, n).value.hash
  {
    hide *;
    var first := common.number + 1;
    WalkLengths(db, a, chainA, common);
    WalkLengths(db, b, chainB, common);
    WalkAt(db, a, chainA, common, n);
    WalkAt(db, b, chainB, common, n);
    WalkAt(db, a, chainA, common, first);
    WalkAt(db, b, chainB, common, first);
    MeetByHash(db, a, b, n, first);
  }

  /** Branches that share a hash share everything below it. */
  lemma MeetByHash(db: Store, a: Block, b: Block, n: nat, m: nat)
    requires WellFormed(db) && Stored(db, a) && Stored(db, b) && m <= n
    requires Ancestor(db, a, n).Some? && Ancestor(db, b, n).Some?
    ensures Ancestor(db, a, n).value.hash == Ancestor(db, b, n).value.hash ==> Ancestor(db, a, m) == Ancestor(db, b, m)
  {
    hide Ancestor;
    AncestorStored(db, a, n);
    AncestorStored(db, b, n);
    if Ancestor(db, a, n).value.hash == Ancestor(db, b, n).value.hash {
      MeetBelow(db, a, b, n, m);
    }
  }

  lemma WalkLengths(db: Store, start: Block, chain: seq<Block>, below: Block)
    requires Walk(db, start, chain, below)
    ensures |chain| == start.number - below.number
  {
  }

  lemma WalkAt(db: Store, start: Block, chain: seq<Block>, below: Block, n: nat)
    requires Walk(db, start, chain, below) && below.number < n <= start.number
    ensures Ancestor(db, start, n) == Some(chain[start.number - n])
  {
    var i := start.number - n;
    assert Ancestor(db, start, start.number - i) == Some(chain[i]);
  }

  lemma MeetBelow(db: Store, a: Block, b: Block, n: nat, m: nat)
    requires Ancestor(db, a, n).Some? && Ancestor(db, a, n) == Ancestor(db, b, n) && m <= n
    ensures Ancestor(db, a, m) == Ancestor(db, b, m)
  {
    AncestorStep(db, a, n, m);
    AncestorStep(db, b, n, m);
  }

  /** The block's parent is not in the index: the fork lies at least two blocks below. */
  predicate DeepFork(canon: map<nat, Hash>, block: Block) {
    block.number > 0 && !(block.number - 1 in canon && canon[block.number - 1] == block.parent)
  }

  /** What a caller sees in the index before the call decides how long the new branch is. */
  lemma ForkDepth(db: Store, canon: map<nat, Hash>, prev: Block, head: Block,
                  dropped: seq<Block>, added: seq<Block>, common: Block)
    requires WellFormed(db) && Stored(db, prev) && Stored(db, head) && Rooted(db, head)
    requires Walk(db, prev, dropped, common) && Walk(db, head, added, common)
    requires dropped != [] && added != [] ==> dropped[|dropped| - 1].hash != added[|added| - 1].hash
    requires CanonPrefix(db, canon, prev) && prev.number > head.number
    ensures DeepFork(canon, head) <==> |added| >= 2
  {
    if head.number > 0 {
      var n := head.number - 1;
      assert Ancestor(db, head, n) == Parent(db, head) && Parent(db, head).value.hash == head.parent;
      assert n in canon;
      if |added| >= 2 {
        BranchesDiffer(db, prev, head, dropped, added, common, n);
      } else {
        SharedBelow(db, prev, head, dropped, added, common, n);
      }
    }
  }

  /** Entries survive above the new head exactly after a shallow fork from a higher head. */
  lemma StaleEntries(db: Store, canon: map<nat, Hash>, canon': map<nat, Hash>, prev: Block, head: Block,
                     dropped: seq<Block>, added: seq<Block>, common: Block, cut: nat)
    requires WellFormed(db) && Stored(db, prev) && Stored(db, head) && Rooted(db, head)
    requires Walk(db, prev, dropped, common) && Walk(db, head, added, common)
    requires dropped != [] && added != [] ==> dropped[|dropped| - 1].hash != added[|added| - 1].hash
    requires CanonPrefix(db, canon, prev) && CanonSwitched(db, canon, canon', head, common, cut)
    requires cut == (if |added| >= 2 then head.number - 1 else prev.number)
    ensures NoneAbove(canon'[head.number := head.hash], head.number) <==> DeepFork(canon, head) || prev.number <= head.number
  {
    if prev.number > head.number {
      ForkDepth(db, canon, prev, head, dropped, added, common);
      assert prev.number in canon;
      assert |added| < 2 ==> prev.number in canon'[head.number := head.hash];
    }
  }

  /** The block is in the index, at or below the head. */
  predicate BelowHead(canon: map<nat, Hash>, current: Block, block: Block) {
    block.number <= current.number && block.number in canon && canon[block.number] == block.hash
  }

  /** The block is a child of the head and in the index already, left over from a longer chain. */
  predicate LeftOver(canon: map<nat, Hash>, current: Block, block: Block) {
    block.parent == current.hash && block.number in canon && canon[block.number] == block.hash
  }

  /** Whether no entry will remain above the block once it is the head, seen from the index before. */
  ghost predicate ClearsAbove(canon: map<nat, Hash>, current: Block, block: Block) {
    if block.parent == current.hash then NoneAbove(canon, block.number)
    else DeepFork(canon, block) || current.number <= block.number
  }

  /** The new head is canonical, before the switch as after it, exactly when it is an ancestor of the old head. */
  lemma AlreadyCanonical(db: Store, canon: map<nat, Hash>, canon': map<nat, Hash>, prev: Block, head: Block,
                         dropped: seq<Block>, added: seq<Block>, common: Block, cut: nat)
    requires WellFormed(db) && Stored(db, prev) && Stored(db, head)
    requires Walk(db, prev, dropped, common) && Walk(db, head, added, common)
    requires dropped != [] && added != [] ==> dropped[|dropped| - 1].hash != added[|added| - 1].hash
    requires CanonPrefix(db, canon, prev) && CanonSwitched(db, canon, canon', head, common, cut)
    requires cut == (if |added| >= 2 then head.number - 1 else prev.number)
    ensures BelowHead(canon, prev, head) <==> added == []
    ensures (head.number in canon' && canon'[head.number] == head.hash) <==> added == []
  {
    if added == [] {
      assert common == head && head.number in canon;
    } else if head.number <= prev.number {
      BranchesDiffer(db, prev, head, dropped, added, common, head.number);
      assert head.number in canon;
    }
  }

  /** Extending the head needs no switch. */
  lemma CanonExtends(db: Store, canon: map<nat, Hash>, prev: Block, head: Block)
    requires CanonPrefix(db, canon, prev) && Contiguous(canon) && Parent(db, head) == Some(prev)
    ensures CanonPrefix(db, canon[head.number := head.hash], head)
    ensures Contiguous(canon[head.number := head.hash])
  {
    var canon' := canon[head.number := head.hash];
    forall n | 0 <= n <= head.number
      ensures n in canon' && Ancestor(db, head, n).Some? && canon'[n] == Ancestor(db, head, n).value.hash
    {
      if n < head.number {
        AncestorStep(db, head, prev.number, n);
        assert n in canon;
      }
    }
  }

  // -------------------------------------------------------------------------
  // Adding blocks
  // -------------------------------------------------------------------------

  /** What the head write completes after a switch. */
  lemma Switched(db: Store, canon: map<nat, Hash>, canon': map<nat, Hash>, lookup: map<Tx, nat>, lookup': map<Tx, nat>,
                 prev: Block, head: Block, dropped: seq<Block>, added: seq<Block>, common: Block, cut: nat)
    requires WellFormed(db) && Stored(db, prev) && Stored(db, head) && Rooted(db, head)
    requires Walk(db, prev, dropped, common) && Walk(db, head, added, common)
    requires dropped != [] && added != [] ==> dropped[|dropped| - 1].hash != added[|added| - 1].hash
    requires CanonPrefix(db, canon, prev) && Contiguous(canon) && CanonSwitched(db, canon, canon', head, common, cut)
    requires cut == (if |added| >= 2 then added[1] else prev).number
    requires LookupExact(db, lookup, prev) && UniqueTxs(db, prev) && UniqueTxs(db, head)
    requires lookup' == Indexed(lookup, Tail(added)) - (TxsOf(dropped) - TxsOf(Tail(added)))
    ensures CanonPrefix(db, canon'[head.number := head.hash], head) && Contiguous(canon'[head.number := head.hash])
    ensures LookupExact(db, WithTxs(lookup', head), head)
    ensures NoneAbove(canon'[head.number := head.hash], head.number) <==> DeepFork(canon, head) || prev.number <= head.number
    ensures (head.number in canon' && canon'[head.number] == head.hash) <==> BelowHead(canon, prev, head)
    ensures BelowHead(canon, prev, head) ==> added == []
  {
    hide *;
    NewestFirst(db, head, added, common);
    CanonFollowsSwitch(db, canon, canon', prev, head, dropped, added, common, cut);
    LookupFollowsSwitch(db, lookup, prev, head, dropped, added, common);
    StaleEntries(db, canon, canon', prev, head, dropped, added, common, cut);
    AlreadyCanonical(db, canon, canon', prev, head, dropped, added, common, cut);
    IsSwitchedLookup(lookup, dropped, added, head);
  }

  /** What the head write does on top of the head. */
  lemma Extended(db: Store, canon: map<nat, Hash>, lookup: map<Tx, nat>, prev: Block, head: Block)
    requires Parent(db, head) == Some(prev) && CanonPrefix(db, canon, prev) && Contiguous(canon)
    requires LookupExact(db, lookup, prev) && UniqueTxs(db, prev) && UniqueTxs(db, head)
    requires head.parent == prev.hash
    ensures CanonPrefix(db, canon[head.number := head.hash], head) && Contiguous(canon[head.number := head.hash])
    ensures LookupExact(db, WithTxs(lookup, head), head)
    ensures NoneAbove(canon[head.number := head.hash], head.number) <==> NoneAbove(canon, head.number)
    ensures LeftOver(canon, prev, head) <==> head.number in canon && canon[head.number] == head.hash
  {
    CanonExtends(db, canon, prev, head);
    LookupFollowsSwitch(db, lookup, prev, head, [], [head], prev);
    IsSwitchedLookup(lookup, [], [head], head);
    assert lookup - (TxsOf([]) - TxsOf(Tail([head]))) == lookup;
    hide CanonPrefix, LookupExact, UniqueTxs, Contiguous;
    var canon' := canon[head.number := head.hash];
    assert forall k :: k in canon ==> k in canon';
  }

  lemma LedgerGrows(db: Store, td: map<Hash, nat>, b: Block, total: nat)
    requires WellFormed(db) && Ledger(db, td) && HashesAgree(db, b)
    requires Parent(db, b).Some? && total == b.difficulty + td[b.parent]
    ensures Ledger(db[b.hash := b], td[b.hash := total])
    ensures Grows(db, db[b.hash := b])
  {
    var db' := db[b.hash := b];
    assert Grows(db, db');
    var p := Parent(db, b).value;
    assert Parent(db', b) == Some(p);
    forall h | h in db ensures Rooted(db', db[h]) && TotalDifficulty(db', db[h]) == TotalDifficulty(db, db[h]) {
      AncestorGrows(db, db', db[h], 0);
      TotalDifficultyGrows(db, db', db[h]);
    }
  }

  /** The branch of a complete block does not change when blocks are added. */
  lemma BranchKept(db: Store, db': Store, head: Block, n: nat, tx: Tx)
    requires Grows(db, db') && Rooted(db, head)
    ensures n <= head.number ==> Ancestor(db', head, n) == Ancestor(db, head, n) && Ancestor(db, head, n).Some?
    ensures OnBranch(db', head, n, tx) <==> OnBranch(db, head, n, tx)
  {
    if n <= head.number {
      RootedAll(db, head, n);
      AncestorGrows(db, db', head, n);
    }
  }

  lemma IndexesKept(db: Store, db': Store, canon: map<nat, Hash>, lookup: map<Tx, nat>, head: Block)
    requires Grows(db, db') && Rooted(db, head)
    requires CanonPrefix(db, canon, head) && UniqueTxs(db, head) && LookupExact(db, lookup, head)
    ensures CanonPrefix(db', canon, head) && UniqueTxs(db', head) && LookupExact(db', lookup, head)
  {
    forall n, tx ensures OnBranch(db', head, n, tx) <==> OnBranch(db, head, n, tx) {
      BranchKept(db, db', head, n, tx);
    }
    forall n | 0 <= n <= head.number ensures Ancestor(db', head, n) == Ancestor(db, head, n) {
      BranchKept(db, db', head, n, 0);
    }
  }

  // -------------------------------------------------------------------------
  // The block database
  // -------------------------------------------------------------------------

  datatype WriteStatus = Canonical | Side | UnknownAncestor

  class BlockChain {
    var blocks: Store
    var td: map<Hash, nat>
    var canon: map<nat, Hash>
    var lookup: map<Tx, nat>
    var current: Block
    var headHeader: Block
    var headFast: Block
    const genesis: Block

    /** The block database without its indexes. */
    ghost predicate StoreValid()
      reads this
    {
      WellFormed(blocks) && Ledger(blocks, td) && OneGenesis(blocks, genesis) && Stored(blocks, current)
    }

    /** All indexes agree with the ancestry of the current block. */
    ghost predicate Valid()
      reads this
    {
      && StoreValid()
      && Contiguous(canon)
      && CanonPrefix(blocks, canon, current)
      && UniqueTxs(blocks, current)
      && LookupExact(blocks, lookup, current)
    }

    lemma Parts()
      requires Valid()
      ensures WellFormed(blocks) && Ledger(blocks, td) && OneGenesis(blocks, genesis) && Stored(blocks, current)
      ensures Contiguous(canon) && CanonPrefix(blocks, canon, current)
      ensures UniqueTxs(blocks, current) && LookupExact(blocks, lookup, current)
    {
    }

    lemma Assemble()
      requires WellFormed(blocks) && Ledger(blocks, td) && OneGenesis(blocks, genesis) && Stored(blocks, current)
      requires Contiguous(canon) && CanonPrefix(blocks, canon, current)
      requires UniqueTxs(blocks, current) && LookupExact(blocks, lookup, current)
      ensures Valid()
    {
    }

    lemma AssembleStore()
      requires WellFormed(blocks) && Ledger(blocks, td) && OneGenesis(blocks, genesis) && Stored(blocks, current)
      ensures StoreValid()
    {
    }

    constructor (genesisBlock: Block)
      requires genesisBlock.number == 0 && genesisBlock.parent == NO_HASH != genesisBlock.hash && genesisBlock.difficulty > 0
      ensures Valid() && NoneAbove(canon, current.number)
      ensures current == genesis == genesisBlock && headHeader == headFast == current
      ensures blocks == map[genesisBlock.hash := genesisBlock] && td == map[genesisBlock.hash := genesisBlock.difficulty]
    {
      blocks := map[genesisBlock.hash := genesisBlock];
      td := map[genesisBlock.hash := genesisBlock.difficulty];
      canon := map[0 := genesisBlock.hash];
      lookup := map tx | tx in genesisBlock.txs :: 0;
      current := genesisBlock;
      headHeader := genesisBlock;
      headFast := genesisBlock;
      genesis := genesisBlock;
    }

    /** Makes a block the canonical one at its number, and the head; the other heads follow when it was not canonical. */
    method WriteHeadBlock(block: Block)
      modifies `canon, `lookup, `current, `headHeader, `headFast
      ensures canon == old(canon)[block.number := block.hash]
      ensures lookup == WithTxs(old(lookup), block)
      ensures current == block
      ensures var updateHeads := !(block.number in old(canon) && old(canon)[block.number] == block.hash);
              && headHeader == (if updateHeads then block else old(headHeader))
              && headFast == (if updateHeads then block else old(headFast))
    {
      var updateHeads := !(block.number in canon && canon[block.number] == block.hash);
      canon := canon[block.number := block.hash];
      lookup := WithTxs(lookup, block);
      if updateHeads {
        headHeader := block;
        headFast := block;
      }
      current := block;
    }

    /** Walks the two branches down to their nearest common ancestor. */
    method FindFork(oldBlock: Block, newBlock: Block)
      returns (ok: bool, common: Block, dropped: seq<Block>, added: seq<Block>)
      requires WellFormed(blocks) && Stored(blocks, oldBlock) && Stored(blocks, newBlock)
      ensures ok ==> Walk(blocks, oldBlock, dropped, common) && Walk(blocks, newBlock, added, common)
      ensures ok && dropped != [] && added != [] ==> dropped[|dropped| - 1].hash != added[|added| - 1].hash
      ensures Rooted(blocks, oldBlock) && Ancestor(blocks, oldBlock, 0) == Ancestor(blocks, newBlock, 0) ==> ok
    {
      ok, common, dropped, added := false, oldBlock, [], [];
      var a, b := oldBlock, newBlock;
      if a.number > b.number {
        while a.number != b.number
          invariant Walk(blocks, oldBlock, dropped, a) && b.number <= a.number
          decreases a.number
        {
          var p := Parent(blocks, a);
          if p.None? {
            AncestorStep(blocks, oldBlock, a.number, 0);
            return;
          }
          WalkStep(blocks, oldBlock, dropped, a);
          dropped := dropped + [a];
          a := p.value;
        }
      } else {
        while b.number != a.number
          invariant Walk(blocks, newBlock, added, b) && a.number <= b.number
          decreases b.number
        {
          var p := Parent(blocks, b);
          if p.None? {
            AncestorStep(blocks, newBlock, b.number, 0);
            return;
          }
          WalkStep(blocks, newBlock, added, b);
          added := added + [b];
          b := p.value;
        }
      }
      while a.hash != b.hash
        invariant Walk(blocks, oldBlock, dropped, a) && Walk(blocks, newBlock, added, b) && a.number == b.number
        invariant dropped != [] && added != [] ==> dropped[|dropped| - 1].hash != added[|added| - 1].hash
        decreases a.number
      {
        AncestorStep(blocks, oldBlock, a.number, 0);
        AncestorStep(blocks, newBlock, b.number, 0);
        var p, r := Parent(blocks, a), Parent(blocks, b);
        if p.None? || r.None? {
          return;
        }
        WalkStep(blocks, oldBlock, dropped, a);
        WalkStep(blocks, newBlock, added, b);
        dropped, added := dropped + [a], added + [b];
        a, b := p.value, r.value;
      }
      AncestorStored(blocks, oldBlock, a.number);
      AncestorStored(blocks, newBlock, b.number);
      ok, common := true, a;
    }

    /**
     Makes a stored block the head. Afterwards all indexes agree with its ancestry. From whatever state, no entry
     remains above the head exactly when the fork is deep or the old head was not above the new one, or none was there
     above a child of the head; the header markers follow exactly when the block was not in the index already.
     */
    method WriteKnownBlock(block: Block) returns (ok: bool)
      requires Valid() && Stored(blocks, block) && UniqueTxs(blocks, block)
      modifies `canon, `lookup, `current, `headHeader, `headFast
      ensures ok && Valid() && current == block
      ensures NoneAbove(canon, block.number) <==> old(ClearsAbove(canon, current, block))
      ensures var kept := old(BelowHead(canon, current, block) || LeftOver(canon, current, block));
              && headHeader == (if kept then old(headHeader) else block)
              && headFast == (if kept then old(headFast) else block)
    {
      SameGenesis(block);
      if block.parent != current.hash {
        ok := SwitchTo(block);
      } else {
        ok := true;
        Extend(block);
      }
    }

    /** The reorganization with the head write that completes it. */
    method SwitchTo(block: Block) returns (ok: bool)
      requires Valid() && Stored(blocks, block) && UniqueTxs(blocks, block)
      modifies `canon, `lookup, `current, `headHeader, `headFast
      ensures ok && Valid() && current == block
      ensures NoneAbove(canon, block.number) <==> old(DeepFork(canon, block) || current.number <= block.number)
      ensures headHeader == (if old(BelowHead(canon, current, block)) then old(headHeader) else block)
      ensures headFast == (if old(BelowHead(canon, current, block)) then old(headFast) else block)
    {
      hide Valid, StoreValid, Ledger, OneGenesis, WellFormed, Stored, Contiguous, CanonPrefix, UniqueTxs, LookupExact, Walk,
           CanonSwitched, NoneAbove, DeepFork, WithTxs, Indexed, TxsOf, Tail, Ancestor, Rooted;
      ghost var prev := current;
      Parts();
      AssembleStore();
      SameGenesis(block);
      var common, dropped, added;
      ok, common, dropped, added := Reorg(current, block);
      Switched(blocks, old(canon), canon, old(lookup), lookup, prev, block, dropped, added, common, current.number);
      WriteHeadBlock(block);
      Assemble();
    }

    method Extend(block: Block)
      requires Valid() && Stored(blocks, block) && UniqueTxs(blocks, block) && Parent(blocks, block) == Some(current)
      modifies `canon, `lookup, `current, `headHeader, `headFast
      ensures Valid() && current == block
      ensures NoneAbove(canon, block.number) <==> old(NoneAbove(canon, block.number))
      ensures headHeader == (if old(LeftOver(canon, current, block)) then old(headHeader) else block)
      ensures headFast == (if old(LeftOver(canon, current, block)) then old(headFast) else block)
    {
      assert block.parent == current.hash;
      hide Valid, StoreValid, Ledger, OneGenesis, WellFormed, Stored, Contiguous, CanonPrefix, UniqueTxs, LookupExact, Walk,
           CanonSwitched, NoneAbove, DeepFork, WithTxs, Indexed, TxsOf, Tail, Ancestor, Rooted;
      Parts();
      Extended(blocks, canon, lookup, current, block);
      WriteHeadBlock(block);
      Assemble();
    }

    /** Every two stored blocks have a complete ancestry down to the same first block. */
    lemma SameGenesis(block: Block)
      requires StoreValid() && Stored(blocks, block)
      ensures Rooted(blocks, current) && Rooted(blocks, block)
      ensures Ancestor(blocks, current, 0) == Ancestor(blocks, block, 0) == Some(genesis)
      ensures block.parent == current.hash ==> Parent(blocks, block) == Some(current)
    {
      AncestorStored(blocks, current, 0);
      AncestorStored(blocks, block, 0);
      assert block.number == 0 ==> block == genesis;
    }

    /** Stores a block and the total difficulty computed for it. */
    method WriteBlockWithoutState(block: Block, total: nat)
      requires Valid() && HashesAgree(blocks, block) && block.hash != NO_HASH && block.difficulty > 0
      requires Parent(blocks, block).Some? && total == block.difficulty + td[block.parent]
      modifies `blocks, `td
      ensures Valid() && Grows(old(blocks), blocks) && Stored(blocks, block)
      ensures blocks == old(blocks)[block.hash := block] && td == old(td)[block.hash := total]
    {
      StoreGrows(block, total);
      Parts();
      hide *;
      td := td[block.hash := total];
      blocks := blocks[block.hash := block];
      Assemble();
    }

    /** What adding one block to the store keeps. */
    lemma StoreGrows(block: Block, total: nat)
      requires Valid() && HashesAgree(blocks, block) && block.hash != NO_HASH && block.difficulty > 0
      requires Parent(blocks, block).Some? && total == block.difficulty + td[block.parent]
      ensures var db := blocks[block.hash := block];
              && WellFormed(db) && Ledger(db, td[block.hash := total]) && OneGenesis(db, genesis)
              && Stored(db, current) && Stored(db, block) && Grows(blocks, db)
              && CanonPrefix(db, canon, current) && UniqueTxs(db, current) && LookupExact(db, lookup, current)
    {
      LedgerGrows(blocks, td, block, total);
      IndexesKept(blocks, blocks[block.hash := block], canon, lookup, current);
    }

    /**
     Stores a processed block and makes it the head when the fork choice prefers it. All indexes keep agreeing
     with the ancestry of the head, whose total difficulty never decreases.
     */
    method WriteBlockWithState(block: Block, currentPreserve: bool, blockPreserve: bool, coin: bool)
      returns (status: WriteStatus)
      requires Valid() && HashesAgree(blocks, block) && block.hash != NO_HASH && block.difficulty > 0
      requires UniqueTxs(blocks[block.hash := block], block)
      modifies this
      ensures Valid()
      ensures status == UnknownAncestor <==> old(Parent(blocks, block).None?)
      ensures status == UnknownAncestor ==> unchanged(this)
      ensures status != UnknownAncestor ==> blocks == old(blocks)[block.hash := block]
      ensures status != UnknownAncestor ==>
                block.parent in old(td) && td == old(td)[block.hash := block.difficulty + old(td)[block.parent]]
      ensures status != UnknownAncestor ==>
                && (td[block.hash] > old(td[current.hash]) ==> status == Canonical)
                && (td[block.hash] < old(td[current.hash]) ==> status == Side)
                && (td[block.hash] == old(td[current.hash]) ==>
                      && (block.number < old(current).number ==> status == Canonical)
                      && (block.number > old(current).number ==> status == Side)
                      && (block.number == old(current).number ==>
                            status == (if currentPreserve then Side else if blockPreserve || coin then Canonical else Side)))
      ensures current == if status == Canonical then block else old(current)
      ensures td[current.hash] >= old(td[current.hash])
      ensures status == Side ==> canon == old(canon) && lookup == old(lookup)
      ensures status == Canonical ==> (NoneAbove(canon, block.number) <==> old(ClearsAbove(canon, current, block)))
      ensures var kept := status != Canonical || block == old(current) || old(LeftOver(canon, current, block));
              && headHeader == (if kept then old(headHeader) else block)
              && headFast == (if kept then old(headFast) else block)
      ensures old(NoneAbove(canon, current.number) && headHeader == headFast == current) ==> headHeader == headFast == current
    {
      hide *;
      RecordedParent(block);
      if !Parent(blocks, block).Some? {
        return UnknownAncestor;
      }
      var localTd := td[current.hash];
      var externTd := block.difficulty + td[block.parent];
      WriteBlockWithoutState(block, externTd);
      status := ChooseHead(block, externTd, localTd, currentPreserve, blockPreserve, coin);
    }

    /** The parent's total difficulty is on record, and so is the block's own when it is stored already. */
    lemma RecordedParent(block: Block)
      requires Valid() && HashesAgree(blocks, block)
      ensures current.hash in td && (Parent(blocks, block).Some? ==> block.parent in td)
      ensures Parent(blocks, block).Some? && block.hash in td ==> td[block.hash] == block.difficulty + td[block.parent]
    {
    }

    /**
     The fork choice and the head change it calls for: more total difficulty wins; a tie goes to the lower
     block, then to the local miner, then to a coin.
     */
    method ChooseHead(block: Block, externTd: nat, localTd: nat, currentPreserve: bool, blockPreserve: bool, coin: bool)
      returns (status: WriteStatus)
      requires Valid() && Stored(blocks, block) && UniqueTxs(blocks, block)
      requires externTd == td[block.hash] && localTd == td[current.hash]
      modifies `canon, `lookup, `current, `headHeader, `headFast
      ensures Valid()
      ensures externTd > localTd ==> status == Canonical
      ensures externTd < localTd ==> status == Side
      ensures externTd == localTd ==>
                && (block.number < old(current).number ==> status == Canonical)
                && (block.number > old(current).number ==> status == Side)
                && (block.number == old(current).number ==>
                      status == (if currentPreserve then Side else if blockPreserve || coin then Canonical else Side))
      ensures current == if status == Canonical then block else old(current)
      ensures td[current.hash] >= localTd
      ensures status == Side ==> unchanged(this)
      ensures status == Canonical ==> (NoneAbove(canon, block.number) <==> old(ClearsAbove(canon, current, block)))
      ensures var kept := status != Canonical || block == old(current) || old(LeftOver(canon, current, block));
              && headHeader == (if kept then old(headHeader) else block)
              && headFast == (if kept then old(headFast) else block)
      ensures old(NoneAbove(canon, current.number) && headHeader == headFast == current) ==> headHeader == headFast == current
    {
      var reorg := externTd > localTd;
      if !reorg && externTd == localTd {
        if block.number < current.number {
          reorg := true;
        } else if block.number == current.number {
          reorg := !currentPreserve && (blockPreserve || coin);
        }
      }
      if reorg {
        PreferredIsNotBelow(block);
        var ok := WriteKnownBlock(block);
        status := Canonical;
      } else {
        status := Side;
      }
    }

    /** An ancestor of the head weighs less, so the fork choice can only return to the head itself. */
    lemma PreferredIsNotBelow(block: Block)
      requires Valid() && Stored(blocks, block)
      ensures current.hash in td && block.hash in td
      ensures BelowHead(canon, current, block) && td[block.hash] >= td[current.hash] ==> block == current
      ensures NoneAbove(canon, current.number) ==> !LeftOver(canon, current, block)
    {
      Parts();
      SameGenesis(block);
      hide Valid, StoreValid, UniqueTxs, LookupExact;
      if BelowHead(canon, current, block) {
        AncestorStored(blocks, current, block.number);
        if block.number < current.number {
          AncestorHasLess(blocks, current, block.number);
        }
      }
    }

    /** Writes a heavier block without transactions on a stored parent. */
    method AddEmptyBlock(parent: Block, block: Block)
      requires Valid() && parent.hash in blocks && blocks[parent.hash] == parent
      requires UniqueTxs(blocks[block.hash := block], block)
      requires block.hash !in blocks && block.hash != 0 && block.difficulty > 0
      requires block.parent == parent.hash && block.number == parent.number + 1
      requires current.hash in td && parent.hash in td && block.difficulty + td[parent.hash] > td[current.hash]
      modifies this
      ensures Valid() && current == block
      ensures blocks == old(blocks)[block.hash := block]
      ensures td == old(td)[block.hash := block.difficulty + old(td[parent.hash])]
      ensures NoneAbove(canon, block.number) <==> old(ClearsAbove(canon, current, block))
    {
      hide *;
      NewChild(parent, block);
      var status := WriteBlockWithState(block, false, false, false);
    }

    lemma NewChild(parent: Block, block: Block)
      requires parent.hash in blocks && blocks[parent.hash] == parent
      requires block.parent == parent.hash && block.number == parent.number + 1
      requires block.hash !in blocks && block.hash != 0
      ensures HashesAgree(blocks, block) && Parent(blocks, block).Some? && block.hash != NO_HASH
    {
    }

    method CollectTxs(chain: seq<Block>) returns (txs: set<Tx>)
      ensures txs == TxsOf(chain)
    {
      txs := {};
      for i := 0 to |chain|
        invariant txs == TxsOf(chain[..i])
      {
        assert chain[..i + 1] == chain[..i] + [chain[i]];
        TxsOfAppend(chain[..i], chain[i]);
        txs := txs + set tx | tx in chain[i].txs;
      }
      assert chain[..|chain|] == chain;
    }

    /**
     Replaces the branch of oldBlock by that of newBlock in all indexes, up to but excluding newBlock itself,
     which the caller writes. Returns the blocks of the two branches above the common ancestor.
     */
    method Reorg(oldBlock: Block, newBlock: Block)
      returns (ok: bool, common: Block, dropped: seq<Block>, added: seq<Block>)
      requires WellFormed(blocks) && Stored(blocks, oldBlock) && Stored(blocks, newBlock)
      requires oldBlock == current && CanonPrefix(blocks, canon, oldBlock) && Contiguous(canon)
      modifies `canon, `lookup, `current, `headHeader, `headFast
      ensures !ok ==> unchanged(this)
      ensures Rooted(blocks, oldBlock) && Ancestor(blocks, oldBlock, 0) == Ancestor(blocks, newBlock, 0) ==> ok
      ensures ok ==> Walk(blocks, oldBlock, dropped, common) && Walk(blocks, newBlock, added, common)
      ensures ok && dropped != [] && added != [] ==> dropped[|dropped| - 1].hash != added[|added| - 1].hash
      ensures ok ==> current == if |added| >= 2 then added[1] else oldBlock
      ensures ok ==> CanonSwitched(blocks, old(canon), canon, newBlock, common, current.number)
      ensures ok ==> lookup == Indexed(old(lookup), Tail(added)) - (TxsOf(dropped) - TxsOf(Tail(added)))
      ensures ok && |added| < 2 ==> unchanged(`headHeader) && unchanged(`headFast)
      ensures ok && |added| >= 2 && old(NoneAbove(canon, oldBlock.number)) ==> headHeader == headFast == current
    {
      ok, common, dropped, added := FindFork(oldBlock, newBlock);
      if !ok {
        return;
      }
      var deletedTxs := CollectTxs(dropped);
      WriteBranch(newBlock, added, common, oldBlock, dropped);
      var addedTxs := CollectTxs(if added == [] then [] else added[1..]);
      CanonWrittenContiguous(blocks, old(canon), canon, newBlock, common, |added| - 1);
      DeleteAbove(current.number);
      lookup := lookup - (deletedTxs - addedTxs);
    }

    /** Writes the new branch oldest first, except its head. */
    method WriteBranch(newBlock: Block, added: seq<Block>, ghost common: Block, ghost oldBlock: Block, ghost dropped: seq<Block>)
      requires WellFormed(blocks) && Stored(blocks, oldBlock) && Stored(blocks, newBlock)
      requires Walk(blocks, oldBlock, dropped, common) && Walk(blocks, newBlock, added, common)
      requires dropped != [] && added != [] ==> dropped[|dropped| - 1].hash != added[|added| - 1].hash
      requires oldBlock == current && CanonPrefix(blocks, canon, oldBlock)
      modifies `canon, `lookup, `current, `headHeader, `headFast
      ensures current == if |added| >= 2 then added[1] else oldBlock
      ensures lookup == Indexed(old(lookup), Tail(added))
      ensures CanonWritten(blocks, old(canon), canon, newBlock, common, |added| - 1)
      ensures |added| < 2 ==> unchanged(`headHeader) && unchanged(`headFast)
      ensures |added| >= 2 && old(NoneAbove(canon, oldBlock.number)) ==> headHeader == headFast == current
    {
      var k := |added|;
      while k > 1
        invariant 0 <= k <= |added| && (k == 0 ==> added == [])
        invariant lookup == Indexed(old(lookup), added[k..])
        invariant current == if k < |added| then added[k] else oldBlock
        invariant CanonWritten(blocks, old(canon), canon, newBlock, common, |added| - k)
        invariant k == |added| ==> unchanged(`headHeader) && unchanged(`headFast)
        invariant k < |added| && old(NoneAbove(canon, oldBlock.number)) ==> headHeader == headFast == added[k]
      {
        k := k - 1;
        BranchStep(blocks, old(canon), canon, oldBlock, newBlock, dropped, added, common, k);
        assert added[k..][1..] == added[k + 1..];
        WriteHeadBlock(added[k]);
      }
      assert added[k..] == Tail(added);
    }

    /** Deletes the canonical numbers above the given one, up to the first gap. */
    method DeleteAbove(number: nat)
      requires Contiguous(canon)
      modifies `canon
      ensures canon == map n | n in old(canon) && n <= number :: old(canon)[n]
    {
      var doomed: set<nat> := {};
      var i := number + 1;
      while i in canon
        invariant number < i
        invariant forall n :: n in doomed <==> number < n < i
        invariant doomed <= canon.Keys
        decreases canon.Keys - doomed
      {
        doomed := doomed + {i};
        i := i + 1;
      }
      assert forall n :: n in canon && n > number ==> n in doomed;
      canon := canon - doomed;
    }
  }

  lemma TxsOfAppend(chain: seq<Block>, b: Block)
    ensures TxsOf(chain + [b]) == TxsOf(chain) + set tx | tx in b.txs
  {
    var both := chain + [b];
    assert both[|chain|] == b;
    assert forall i :: 0 <= i < |chain| ==> both[i] == chain[i];
  }

  /**
   A reachable state with an entry above the head: a block of high difficulty one step above the fork
   replaces a longer branch, and the number of the longer branch's last block stays in the index.
   */
  method ShallowForkExample() returns (bc: BlockChain)
    ensures bc.Valid() && bc.current.number == 1 && !NoneAbove(bc.canon, bc.current.number)
  {
    hide *;
    bc := TwoBlockBranch();
    NothingRepeats(bc, Block(4, 1, 1, 9, 0, []));
    GenesisChildIsShallow(bc, Block(4, 1, 1, 9, 0, []));
    bc.AddEmptyBlock(Block(1, 0, 0, 1, 0, []), Block(4, 1, 1, 9, 0, []));
  }

  method TwoBlockBranch() returns (bc: BlockChain)
    ensures fresh(bc) && bc.Valid()
    ensures bc.genesis == Block(1, 0, 0, 1, 0, []) && bc.current == Block(3, 2, 2, 1, 0, [])
    ensures bc.blocks == map[1 := bc.genesis, 2 := Block(2, 1, 1, 1, 0, []), 3 := bc.current]
    ensures bc.td == map[1 := 1, 2 := 2, 3 := 3]
  {
    assert NO_HASH == 0;
    hide *;
    bc := new BlockChain(Block(1, 0, 0, 1, 0, []));
    NothingRepeats(bc, Block(2, 1, 1, 1, 0, []));
    bc.AddEmptyBlock(Block(1, 0, 0, 1, 0, []), Block(2, 1, 1, 1, 0, []));
    NothingRepeats(bc, Block(3, 2, 2, 1, 0, []));
    bc.AddEmptyBlock(Block(2, 1, 1, 1, 0, []), Block(3, 2, 2, 1, 0, []));
  }

  lemma GenesisChildIsShallow(bc: BlockChain, block: Block)
    requires bc.Valid() && block.number == 1 < bc.current.number && block.parent == bc.genesis.hash != bc.current.hash
    ensures !ClearsAbove(bc.canon, bc.current, block)
  {
    bc.SameGenesis(bc.current);
    assert 0 in bc.canon;
  }

  /** Without transactions nothing repeats. */
  lemma NothingRepeats(bc: BlockChain, block: Block)
    requires block.txs == [] && forall h :: h in bc.blocks ==> bc.blocks[h].txs == []
    ensures UniqueTxs(bc.blocks[block.hash := block], block)
  {
    EmptyBranch(bc.blocks[block.hash := block], block);
  }

  lemma EmptyBranch(db: Store, head: Block)
    requires head.txs == [] && forall h :: h in db ==> db[h].txs == []
    ensures UniqueTxs(db, head)
  {
    forall n, tx ensures !OnBranch(db, head, n, tx) {
      EmptyAncestor(db, head, n);
    }
  }

  lemma {:induction false} EmptyAncestor(db: Store, b: Block, n: nat)
    requires b.txs == [] && forall h :: h in db ==> db[h].txs == []
    ensures Ancestor(db, b, n).Some? ==> Ancestor(db, b, n).value.txs == []
    decreases b.number
  {
    if n < b.number && Parent(db, b).Some? {
      EmptyAncestor(db, Parent(db, b).value, n);
    }
  }
}
