/** Runs of block writes: the head is always a heaviest block written so far, and the lowest of those. */
module HeaviestChain {
  import opened Ancestry
  import opened CanonicalChain
  import opened Wrappers

  /** What decides between blocks of equal total difficulty and number. */
  datatype Tie = Tie(currentPreserve: bool, blockPreserve: bool, coin: bool)

  /** All blocks there are: hashes name single blocks, and no branch repeats a transaction. */
  ghost predicate Universe(world: Store) {
    WellFormed(world) && forall h :: h in world ==> UniqueTxs(world, world[h])
  }

  /** The store after the first i blocks were offered: each is stored exactly when its parent is there. */
  ghost function StoreAfter(db: Store, items: seq<Block>, i: nat): Store
    requires i <= |items|
  {
    if i == 0 then db
    else
      var before := StoreAfter(db, items, i - 1);
      if Parent(before, items[i - 1]).Some? then before[items[i - 1].hash := items[i - 1]] else before
  }

  ghost function Max(a: nat, b: nat): nat {
    if a < b then b else a
  }

  /** What the offer of a block makes of the head's total: the larger of the two, if the block is accepted. */
  ghost function Heavier(world: Store, total: nat, b: Block, status: WriteStatus): nat {
    if status == UnknownAncestor then total else Max(total, TotalDifficulty(world, b))
  }

  /** The block a is heavier than b, or as heavy and not above it. */
  ghost predicate Outranks(world: Store, a: Block, b: Block) {
    || TotalDifficulty(world, a) > TotalDifficulty(world, b)
    || (TotalDifficulty(world, a) == TotalDifficulty(world, b) && a.number <= b.number)
  }

  /**
   The right head after i offers: it outranks the first head and every accepted block, so it is a heaviest
   one, of the least number among the heaviest; and it is one of them.
   */
  ghost predicate Leads(world: Store, first: Block, items: seq<Block>, statuses: seq<WriteStatus>, i: nat, head: Block)
    requires i <= |items| && i <= |statuses|
  {
    && Outranks(world, head, first)
    && (forall k :: 0 <= k < i && statuses[k] != UnknownAncestor ==> Outranks(world, head, items[k]))
    && (head == first || exists k :: 0 <= k < i && statuses[k] == Canonical && items[k] == head)
  }

  /** What n offers have left behind: their statuses, and after each the head and its total. */
  ghost predicate History(db: Store, world: Store, first: Block, items: seq<Block>, n: nat,
                          statuses: seq<WriteStatus>, totals: seq<nat>, heads: seq<Block>)
  {
    && n <= |items| && |statuses| == n && |totals| == |heads| == n + 1
    && (forall i :: 0 <= i < n ==> (statuses[i] == UnknownAncestor <==> Parent(StoreAfter(db, items, i), items[i]).None?))
    && totals[0] == TotalDifficulty(world, first)
    && (forall i :: 0 <= i < n ==> totals[i + 1] == Heavier(world, totals[i], items[i], statuses[i]))
    && heads[0] == first
    && (forall i :: 0 <= i < n ==> heads[i + 1] == if statuses[i] == Canonical then items[i] else heads[i])
    && (forall i :: 0 <= i <= n ==> Leads(world, first, items, statuses, i, heads[i]))
  }

  /**
   Writes blocks one after the other, in any order. A block is refused exactly when its parent is neither in the
   initial store nor among the blocks accepted before it. The head is at every point, among the old head and the
   blocks accepted so far, of the largest total and of the least number with that total.
   */
  method WriteAll(bc: BlockChain, items: seq<Block>, ties: nat -> Tie, ghost world: Store)
    returns (statuses: seq<WriteStatus>, totals: seq<nat>, heads: seq<Block>)
    requires bc.Valid() && Universe(world) && Grows(bc.blocks, world)
    requires forall i :: 0 <= i < |items| ==> Stored(world, items[i])
    modifies bc
    ensures bc.Valid() && Grows(bc.blocks, world) && bc.blocks == StoreAfter(old(bc.blocks), items, |items|)
    ensures History(old(bc.blocks), world, old(bc.current), items, |items|, statuses, totals, heads)
    ensures heads[|items|] == bc.current && totals[|items|] == TotalDifficulty(world, bc.current)
  {
    hide *;
    ghost var db, first := bc.blocks, bc.current;
    HeadTotal(bc, world);
    statuses, totals, heads := [], [bc.td[bc.current.hash]], [bc.current];
    NoHistory(db, world, first, items);
    for i := 0 to |items|
      invariant bc.Valid() && Grows(bc.blocks, world) && bc.blocks == StoreAfter(db, items, i)
      invariant bc.current.hash in bc.td && |totals| == |heads| == i + 1
      invariant bc.td[bc.current.hash] == totals[i] == TotalDifficulty(world, bc.current) && heads[i] == bc.current
      invariant History(db, world, first, items, i, statuses, totals, heads)
    {
      NextOffer(db, items, i);
      var status := WriteOne(bc, items[i], ties(i), world);
      NextHistory(db, world, first, items, i, statuses, totals, heads, status, bc.td[bc.current.hash], bc.current);
      statuses, totals, heads := statuses + [status], totals + [bc.td[bc.current.hash]], heads + [bc.current];
    }
  }

  lemma NoHistory(db: Store, world: Store, first: Block, items: seq<Block>)
    ensures StoreAfter(db, items, 0) == db
    ensures History(db, world, first, items, 0, [], [TotalDifficulty(world, first)], [first])
  {
  }

  lemma NextHistory(db: Store, world: Store, first: Block, items: seq<Block>, n: nat,
                    statuses: seq<WriteStatus>, totals: seq<nat>, heads: seq<Block>,
                    status: WriteStatus, total: nat, head: Block)
    requires n < |items| && History(db, world, first, items, n, statuses, totals, heads)
    requires status == UnknownAncestor <==> Parent(StoreAfter(db, items, n), items[n]).None?
    requires total == Heavier(world, totals[n], items[n], status)
    requires head == if status == Canonical then items[n] else heads[n]
    requires Outranks(world, head, heads[n]) && (status != UnknownAncestor ==> Outranks(world, head, items[n]))
    ensures History(db, world, first, items, n + 1, statuses + [status], totals + [total], heads + [head])
  {
    hide Leads, Outranks, Heavier, Parent, StoreAfter;
    LeadsNext(world, first, items, statuses, status, heads[n], head);
    forall k | 0 <= k <= n ensures Leads(world, first, items, statuses + [status], k, heads[k]) {
      LeadsPrefix(world, first, items, statuses, status, k, heads[k]);
    }
  }

  lemma LeadsPrefix(world: Store, first: Block, items: seq<Block>, statuses: seq<WriteStatus>, status: WriteStatus, k: nat, head: Block)
    requires k <= |statuses| <= |items| && Leads(world, first, items, statuses, k, head)
    ensures Leads(world, first, items, statuses + [status], k, head)
  {
  }

  /** A head that outranks its predecessor and the new block, when that is accepted, outranks all there is. */
  lemma LeadsNext(world: Store, first: Block, items: seq<Block>, statuses: seq<WriteStatus>, status: WriteStatus,
                  head: Block, head': Block)
    requires |statuses| < |items| && Leads(world, first, items, statuses, |statuses|, head)
    requires head' == if status == Canonical then items[|statuses|] else head
    requires Outranks(world, head', head) && (status != UnknownAncestor ==> Outranks(world, head', items[|statuses|]))
    ensures Leads(world, first, items, statuses + [status], |statuses| + 1, head')
  {
    hide TotalDifficulty;
    var i, after := |statuses|, statuses + [status];
    if status == Canonical {
      assert after[i] == Canonical && items[i] == head';
    } else if head != first {
      var k :| 0 <= k < i && statuses[k] == Canonical && items[k] == head;
      assert after[k] == Canonical;
    }
  }

  /** One offer: refused exactly without a parent, else stored; the head then outranks the old one and the block. */
  method WriteOne(bc: BlockChain, b: Block, tie: Tie, ghost world: Store) returns (status: WriteStatus)
    requires bc.Valid() && Universe(world) && Grows(bc.blocks, world) && Stored(world, b)
    requires bc.current.hash in bc.td
    modifies bc
    ensures bc.Valid() && Grows(bc.blocks, world)
    ensures status == UnknownAncestor <==> old(Parent(bc.blocks, b).None?)
    ensures bc.blocks == if status == UnknownAncestor then old(bc.blocks) else old(bc.blocks)[b.hash := b]
    ensures bc.current == if status == Canonical then b else old(bc.current)
    ensures bc.current.hash in bc.td && bc.td[bc.current.hash] == TotalDifficulty(world, bc.current)
    ensures bc.td[bc.current.hash] == Heavier(world, old(bc.td[bc.current.hash]), b, status)
    ensures Outranks(world, bc.current, old(bc.current)) && (status != UnknownAncestor ==> Outranks(world, bc.current, b))
  {
    hide *;
    HeadTotal(bc, world);
    Admissible(bc.blocks, world, b);
    NoRepeats(bc.blocks[b.hash := b], world, b);
    ghost var local, current := bc.td[bc.current.hash], bc.current;
    status := bc.WriteBlockWithState(b, tie.currentPreserve, tie.blockPreserve, tie.coin);
    HeadTotal(bc, world);
    Unmoved(world, local, b, current);
    if status != UnknownAncestor {
      RecordedTotal(bc, world, b);
      RankWins(world, b, current, bc.current, status);
    }
  }

  lemma Unmoved(world: Store, total: nat, b: Block, head: Block)
    ensures Heavier(world, total, b, UnknownAncestor) == total && Outranks(world, head, head)
  {
  }

  /** The fork choice goes by total difficulty and then by number: the new head outranks both candidates. */
  lemma RankWins(world: Store, b: Block, current: Block, head: Block, status: WriteStatus)
    requires head == (if status == Canonical then b else current) && status != UnknownAncestor
    requires TotalDifficulty(world, b) > TotalDifficulty(world, current) ==> status == Canonical
    requires TotalDifficulty(world, b) < TotalDifficulty(world, current) ==> status == Side
    requires TotalDifficulty(world, b) == TotalDifficulty(world, current) ==>
               && (b.number < current.number ==> status == Canonical)
               && (b.number > current.number ==> status == Side)
    ensures Outranks(world, head, b) && Outranks(world, head, current)
    ensures TotalDifficulty(world, head) == Heavier(world, TotalDifficulty(world, current), b, status)
  {
  }

  lemma NextOffer(db: Store, items: seq<Block>, i: nat)
    requires i < |items|
    ensures var before := StoreAfter(db, items, i);
      StoreAfter(db, items, i + 1) ==
      if Parent(before, items[i]).None? then before else before[items[i].hash := items[i]]
  {
  }

  /** Totals on record are those of the whole universe of blocks. */
  lemma RecordedTotal(bc: BlockChain, world: Store, b: Block)
    requires bc.Valid() && Grows(bc.blocks, world) && b.hash in bc.blocks && bc.blocks[b.hash] == b
    ensures b.hash in bc.td && bc.td[b.hash] == TotalDifficulty(world, b)
  {
    bc.Parts();
    hide CanonicalChain.BlockChain.Valid, CanonPrefix, UniqueTxs, LookupExact;
    TotalDifficultyGrows(bc.blocks, world, b);
  }

  lemma HeadTotal(bc: BlockChain, world: Store)
    requires bc.Valid() && Grows(bc.blocks, world)
    ensures bc.current.hash in bc.td && bc.td[bc.current.hash] == TotalDifficulty(world, bc.current)
  {
    bc.Parts();
    RecordedTotal(bc, world, bc.current);
  }

  /** A block of the universe meets what a write asks for. */
  lemma Admissible(db: Store, world: Store, b: Block)
    requires Universe(world) && Grows(db, world) && Stored(world, b)
    ensures HashesAgree(db, b) && b.hash != NO_HASH && b.difficulty > 0
    ensures Grows(db[b.hash := b], world)
  {
  }

  lemma NoRepeats(db: Store, world: Store, b: Block)
    requires Universe(world) && Grows(db, world) && Stored(world, b)
    ensures UniqueTxs(db, b)
  {
    assert UniqueTxs(world, b);
    forall m, n, tx | OnBranch(db, b, m, tx) && OnBranch(db, b, n, tx) ensures m == n {
      hide Universe, Grows;
      AncestorGrows(db, world, b, m);
      AncestorGrows(db, world, b, n);
      assert OnBranch(world, b, m, tx) && OnBranch(world, b, n, tx);
    }
  }
}
