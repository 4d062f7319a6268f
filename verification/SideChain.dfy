/** Import of a side chain whose ancestors' state was pruned. */
module SideChain {
  import opened Ancestry
  import opened CanonicalChain
  import opened Wrappers

  const MAX_BATCH: nat := 2048
  const MAX_MEMORY: nat := 64 * 1024 * 1024

  datatype ImportError = NoError | PrunedAncestor | OtherError

  // -------------------------------------------------------------------------
  // The import iterator
  // -------------------------------------------------------------------------

  /** Iterates over a chain together with the verification results, which arrive in order on a channel. */
  class InsertIterator {
    const chain: seq<Block>
    /** The header results in the order in which the channel delivers them. */
    const results: seq<ImportError>
    /** What body validation says about each block when it is reached. */
    const bodies: seq<ImportError>
    var errors: seq<ImportError>
    var index: int

    /** The results taken off the channel so far are a prefix of it; none is taken twice or skipped. */
    ghost predicate Valid()
      reads this
    {
      && |results| == |bodies| == |chain|
      && -1 <= index <= |chain|
      && errors <= results
      && (index < |chain| ==> index < |errors| <= index + 2)
    }

    /** The verdict that belongs to the block at position i. */
    function Verdict(i: nat): ImportError
      requires i < |results| && i < |bodies|
    {
      if results[i] != NoError then results[i] else bodies[i]
    }

    constructor (chain: seq<Block>, results: seq<ImportError>, bodies: seq<ImportError>)
      requires |results| == |bodies| == |chain|
      ensures Valid() && this.chain == chain && this.results == results && this.bodies == bodies
      ensures index == -1 && errors == []
    {
      this.chain := chain;
      this.results := results;
      this.bodies := bodies;
      errors := [];
      index := -1;
    }

    method Next() returns (block: Option<Block>, err: ImportError)
      requires Valid()
      modifies this
      ensures Valid()
      ensures index == if old(index) + 1 < |chain| then old(index) + 1 else |chain|
      ensures if index < |chain|
              then block == Some(chain[index]) && err == (if results[index] != NoError then results[index] else bodies[index])
              else block == None && err == NoError
    {
      if index + 1 >= |chain| {
        index := |chain|;
        return None, NoError;
      }
      index := index + 1;
      if |errors| <= index {
        errors := errors + [results[|errors|]];
      }
      if errors[index] != NoError {
        return Some(chain[index]), errors[index];
      }
      return Some(chain[index]), bodies[index];
    }

    /** Looks at the next block without advancing; a later Next sees the same result. */
    method Peek() returns (block: Option<Block>, err: ImportError)
      requires Valid()
      modifies `errors
      ensures Valid()
      ensures if index + 1 < |chain| then block == Some(chain[index + 1]) && err == results[index + 1]
              else block == None && err == NoError
    {
      if index + 1 >= |chain| {
        return None, NoError;
      }
      if |errors| <= index + 1 {
        errors := errors + [results[|errors|]];
      }
      return Some(chain[index + 1]), errors[index + 1];
    }

    method Previous() returns (header: Option<Block>)
      requires Valid()
      ensures header == if index < 1 then None else Some(chain[index - 1])
    {
      if index < 1 {
        return None;
      }
      return Some(chain[index - 1]);
    }
  }

  /** What the importer has checked of a batch of blocks: it is linked, and hashes name single blocks. */
  ghost predicate Linked(chain: seq<Block>) {
    && (forall i {:trigger chain[i]} :: 0 <= i < |chain| ==> chain[i].hash != NO_HASH && chain[i].difficulty > 0)
    && (forall i :: 0 < i < |chain| ==> chain[i].parent == chain[i - 1].hash && chain[i].number == chain[i - 1].number + 1)
    && (forall i, j :: 0 <= i < j < |chain| ==> chain[i].hash != chain[j].hash)
  }

  // -------------------------------------------------------------------------
  // Writing the side chain
  // -------------------------------------------------------------------------

  datatype WriteOutcome = Written(total: nat) | GhostState

  /** Where the stretch of pruned blocks that starts at i ends: at the first block after it with another verdict. */
  ghost function PrunedEnd(it: InsertIterator, i: nat): (end: nat)
    requires |it.results| == |it.bodies| == |it.chain| && i < |it.chain|
    ensures i < end <= |it.chain|
    ensures forall k :: i < k < end ==> it.Verdict(k) == PrunedAncestor
    ensures end < |it.chain| ==> it.Verdict(end) != PrunedAncestor
    decreases |it.chain| - i
  {
    if i + 1 < |it.chain| && it.Verdict(i + 1) == PrunedAncestor then PrunedEnd(it, i + 1) else i + 1
  }

  /** The store with the blocks added one after the other. */
  ghost function WithBlocks(db: Store, bs: seq<Block>): Store {
    if bs == [] then db else WithBlocks(db, bs[..|bs| - 1])[bs[|bs| - 1].hash := bs[|bs| - 1]]
  }

  /** One of the blocks from start to end claims the state of a canonical block. */
  ghost predicate Attacked(db: Store, canon: map<nat, Hash>, current: Block, chain: seq<Block>, start: nat, end: nat)
    requires end <= |chain|
  {
    exists k :: start <= k < end && RepeatsCanonicalState(db, canon, current, chain[k])
  }

  /**
   Stores the pruned blocks from the iterator's position on, each with the total difficulty obtained by
   mixing recorded totals of canonical blocks with a running sum. The ledger stays exact. The whole pruned
   stretch is stored unless one of its blocks repeats a canonical state; then exactly those before it are.
   */
  method WriteSideBlocks(bc: BlockChain, it: InsertIterator) returns (outcome: WriteOutcome)
    requires bc.Valid() && it.Valid() && 0 <= it.index < |it.chain| && Linked(it.chain)
    requires forall i :: 0 <= i < |it.chain| ==> HashesAgree(bc.blocks, it.chain[i])
    requires Parent(bc.blocks, it.chain[it.index]).Some?
    modifies bc`blocks, bc`td, it
    ensures bc.Valid() && it.Valid() && Grows(old(bc.blocks), bc.blocks)
    ensures old(it.index) <= it.index <= |it.chain|
    ensures bc.blocks == WithBlocks(old(bc.blocks), it.chain[old(it.index)..it.index])
    ensures outcome.GhostState? <==>
              Attacked(old(bc.blocks), bc.canon, bc.current, it.chain, old(it.index), PrunedEnd(it, old(it.index)))
    ensures outcome.GhostState? ==>
              && it.index < |it.chain| && RepeatsCanonicalState(old(bc.blocks), bc.canon, bc.current, it.chain[it.index])
              && !Attacked(old(bc.blocks), bc.canon, bc.current, it.chain, old(it.index), it.index)
    ensures outcome.Written? ==>
              && it.index == PrunedEnd(it, old(it.index))
              && (forall k :: old(it.index) <= k < it.index ==> Stored(bc.blocks, it.chain[k]))
              && outcome.total == TotalDifficulty(bc.blocks, it.chain[it.index - 1])
  {
    hide *;
    GrowsReflexive(bc.blocks);
    StretchStarts(bc, it);
    ghost var db := bc.blocks;
    var start := it.index;
    ghost var end := PrunedEnd(it, start);
    var block, err := Some(it.chain[start]), PrunedAncestor;
    var externTd: Option<nat> := None;
    while block.Some? && err == PrunedAncestor
      invariant bc.Valid() && it.Valid() && Grows(db, bc.blocks)
      invariant start <= it.index <= end <= |it.chain|
      invariant block == if it.index < |it.chain| then Some(it.chain[it.index]) else None
      invariant block.Some? && err == PrunedAncestor <==> it.index < end
      invariant bc.blocks == WithBlocks(db, it.chain[start..it.index])
      invariant !Attacked(db, bc.canon, bc.current, it.chain, start, it.index)
      invariant forall i :: it.index <= i < |it.chain| ==> HashesAgree(bc.blocks, it.chain[i])
      invariant forall k :: start <= k < it.index ==> Stored(bc.blocks, it.chain[k])
      invariant it.index == start <==> externTd.None?
      invariant it.index == start ==> Parent(bc.blocks, it.chain[start]).Some?
      invariant it.index > start ==>
                  it.chain[it.index - 1].hash in bc.td && externTd.value == bc.td[it.chain[it.index - 1].hash]
      decreases |it.chain| - it.index
    {
      var b := block.value;
      NextParent(bc.blocks, it.chain, start, it.index);
      bc.RecordedParent(b);
      ghost var before := bc.blocks;
      RepeatKept(db, before, bc.canon, bc.current, b);
      var ok, total := WriteSideBlock(bc, b, externTd);
      if !ok {
        AttackFound(db, bc.canon, bc.current, it.chain, start, it.index, end);
        return GhostState;
      }
      StillAgree(before, bc.blocks, it.chain, it.index);
      GrowsTransitive(db, before, bc.blocks);
      StillStored(before, bc.blocks, it.chain, start, it.index);
      OneMoreBlock(db, bc.canon, bc.current, it.chain, start, it.index);
      externTd := Some(total);
      StretchGoesOn(it, start, it.index);
      block, err := it.Next();
    }
    LedgerEntry(bc, it.chain[it.index - 1]);
    outcome := Written(externTd.value);
  }

  /** Every canonical number up to the head names a stored block. */
  ghost predicate CanonStored(db: Store, canon: map<nat, Hash>, current: Block) {
    forall n: nat :: n <= current.number ==> n in canon && canon[n] in db
  }

  lemma StretchStarts(bc: BlockChain, it: InsertIterator)
    requires bc.Valid() && it.Valid() && 0 <= it.index < |it.chain|
    ensures |it.results| == |it.bodies| == |it.chain| && CanonStored(bc.blocks, bc.canon, bc.current)
    ensures bc.blocks == WithBlocks(bc.blocks, it.chain[it.index..it.index])
    ensures !Attacked(bc.blocks, bc.canon, bc.current, it.chain, it.index, it.index)
  {
    hide CanonicalChain.BlockChain.Valid, CanonPrefix, UniqueTxs, LookupExact, Ledger, Contiguous, OneGenesis, CanonStored;
    bc.Parts();
    CanonIsStored(bc.blocks, bc.canon, bc.current);
  }

  lemma CanonIsStored(db: Store, canon: map<nat, Hash>, current: Block)
    requires WellFormed(db) && Stored(db, current) && CanonPrefix(db, canon, current)
    ensures CanonStored(db, canon, current)
  {
    forall n: nat | n <= current.number ensures n in canon && canon[n] in db {
      assert n in canon && canon[n] == Ancestor(db, current, n).value.hash;
      AncestorStored(db, current, n);
    }
  }

  /** Storing more blocks does not change whose state a block repeats. */
  lemma RepeatKept(db: Store, db': Store, canon: map<nat, Hash>, current: Block, b: Block)
    requires Grows(db, db') && CanonStored(db, canon, current)
    ensures RepeatsCanonicalState(db, canon, current, b) <==> RepeatsCanonicalState(db', canon, current, b)
  {
  }

  lemma AttackFound(db: Store, canon: map<nat, Hash>, current: Block, chain: seq<Block>, start: nat, i: nat, end: nat)
    requires start <= i < end <= |chain| && RepeatsCanonicalState(db, canon, current, chain[i])
    ensures Attacked(db, canon, current, chain, start, end)
  {
  }

  lemma OneMoreBlock(db: Store, canon: map<nat, Hash>, current: Block, chain: seq<Block>, start: nat, i: nat)
    requires start <= i < |chain|
    ensures WithBlocks(db, chain[start..i + 1]) == WithBlocks(db, chain[start..i])[chain[i].hash := chain[i]]
    ensures Attacked(db, canon, current, chain, start, i + 1) <==>
            Attacked(db, canon, current, chain, start, i) || RepeatsCanonicalState(db, canon, current, chain[i])
  {
    assert chain[start..i + 1][..i - start] == chain[start..i];
  }

  lemma StretchGoesOn(it: InsertIterator, start: nat, i: nat)
    requires |it.results| == |it.bodies| == |it.chain| && start < |it.chain| && start <= i < PrunedEnd(it, start)
    ensures i + 1 < |it.chain| ==>
              ((if it.results[i + 1] != NoError then it.results[i + 1] else it.bodies[i + 1]) == PrunedAncestor
               <==> i + 1 < PrunedEnd(it, start))
  {
    assert i + 1 < |it.chain| ==> (it.Verdict(i + 1) == PrunedAncestor <==> i + 1 < PrunedEnd(it, start));
  }

  /** A block off the canonical chain claims the state root of the canonical block at its number. */
  predicate RepeatsCanonicalState(db: Store, canon: map<nat, Hash>, current: Block, b: Block) {
    && b.number <= current.number && b.number in canon && canon[b.number] in db
    && canon[b.number] != b.hash && db[canon[b.number]].root == b.root
  }

  /** What that means for the chain: the head's ancestor at that number is another block with the same state. */
  lemma RepeatsAncestor(bc: BlockChain, b: Block)
    requires bc.Valid()
    ensures WellFormed(bc.blocks)
    ensures RepeatsCanonicalState(bc.blocks, bc.canon, bc.current, b) <==>
            && b.number <= bc.current.number && Ancestor(bc.blocks, bc.current, b.number).Some?
            && Ancestor(bc.blocks, bc.current, b.number).value.hash != b.hash
            && Ancestor(bc.blocks, bc.current, b.number).value.root == b.root
  {
    bc.Parts();
    hide CanonicalChain.BlockChain.Valid, UniqueTxs, LookupExact, Ledger, OneGenesis;
    if b.number <= bc.current.number {
      assert b.number in bc.canon && bc.canon[b.number] == Ancestor(bc.blocks, bc.current, b.number).value.hash;
      AncestorStored(bc.blocks, bc.current, b.number);
    }
  }

  /** One round of the loop: the total is the recorded one for a canonical block, else the running sum. */
  method WriteSideBlock(bc: BlockChain, b: Block, externTd: Option<nat>) returns (ok: bool, total: nat)
    requires bc.Valid() && HashesAgree(bc.blocks, b) && b.hash != NO_HASH && b.difficulty > 0
    requires Parent(bc.blocks, b).Some? && b.parent in bc.td
    requires externTd.Some? ==> externTd.value == bc.td[b.parent]
    modifies bc`blocks, bc`td
    ensures bc.Valid() && Grows(old(bc.blocks), bc.blocks)
    ensures bc.blocks == if ok then old(bc.blocks)[b.hash := b] else old(bc.blocks)
    ensures ok ==> Stored(bc.blocks, b) && b.hash in bc.td && total == bc.td[b.hash]
    ensures !ok ==> unchanged(bc)
    ensures !ok <==> old(RepeatsCanonicalState(bc.blocks, bc.canon, bc.current, b))
  {
    hide *;
    ok, total := true, 0;
    SideBlockFacts(bc, b);
    GrowsReflexive(bc.blocks);
    if b.number <= bc.current.number {
      if bc.canon[b.number] == b.hash {
        NotRepeated(bc, b);
        return true, bc.td[b.hash];
      }
      if bc.blocks[bc.canon[b.number]].root == b.root {
        Repeated(bc, b);
        return false, 0;
      }
    }
    NotRepeated(bc, b);
    total := (if externTd.None? then bc.td[b.parent] else externTd.value) + b.difficulty;
    if b.hash !in bc.blocks {
      bc.WriteBlockWithoutState(b, total);
    }
  }

  lemma SideBlockFacts(bc: BlockChain, b: Block)
    requires bc.Valid() && HashesAgree(bc.blocks, b) && Parent(bc.blocks, b).Some?
    ensures b.hash in bc.blocks ==> bc.blocks[b.hash] == b && Stored(bc.blocks, b)
    ensures b.hash in bc.blocks ==> b.hash in bc.td && b.parent in bc.td && bc.td[b.hash] == b.difficulty + bc.td[b.parent]
    ensures b.number <= bc.current.number ==> b.number in bc.canon && bc.canon[b.number] in bc.blocks
    ensures b.number <= bc.current.number && bc.canon[b.number] == b.hash ==> b.hash in bc.blocks
  {
    bc.RecordedParent(b);
    if b.number <= bc.current.number {
      assert b.number in bc.canon;
      AncestorStored(bc.blocks, bc.current, b.number);
    }
  }

  lemma GrowsReflexive(db: Store)
    ensures Grows(db, db)
  {
  }

  lemma GrowsTransitive(a: Store, b: Store, c: Store)
    requires Grows(a, b) && Grows(b, c)
    ensures Grows(a, c)
  {
  }

  lemma StillStored(db: Store, db': Store, chain: seq<Block>, start: nat, i: nat)
    requires Grows(db, db') && start <= i <= |chain|
    requires forall k :: start <= k < i ==> Stored(db, chain[k])
    ensures forall k :: start <= k < i ==> Stored(db', chain[k])
  {
  }

  lemma Repeated(bc: BlockChain, b: Block)
    requires b.number <= bc.current.number && b.number in bc.canon && bc.canon[b.number] in bc.blocks
    requires bc.canon[b.number] != b.hash && bc.blocks[bc.canon[b.number]].root == b.root
    ensures RepeatsCanonicalState(bc.blocks, bc.canon, bc.current, b)
  {
  }

  lemma NotRepeated(bc: BlockChain, b: Block)
    ensures b.number in bc.canon && bc.canon[b.number] in bc.blocks && bc.blocks[bc.canon[b.number]].root != b.root ==>
            !RepeatsCanonicalState(bc.blocks, bc.canon, bc.current, b)
    ensures b.number > bc.current.number ==> !RepeatsCanonicalState(bc.blocks, bc.canon, bc.current, b)
    ensures b.number in bc.canon && bc.canon[b.number] == b.hash ==> !RepeatsCanonicalState(bc.blocks, bc.canon, bc.current, b)
  {
  }

  lemma LedgerEntry(bc: BlockChain, b: Block)
    requires bc.Valid() && Stored(bc.blocks, b)
    ensures b.hash in bc.td && bc.td[b.hash] == TotalDifficulty(bc.blocks, b)
  {
  }

  lemma NextParent(db: Store, chain: seq<Block>, start: nat, i: nat)
    requires Linked(chain) && start <= i < |chain| && HashesAgree(db, chain[i])
    requires i == start ==> Parent(db, chain[i]).Some?
    requires i > start ==> Stored(db, chain[i - 1])
    ensures Parent(db, chain[i]).Some? && chain[i].hash != NO_HASH && chain[i].difficulty > 0
    ensures i > start ==> chain[i].parent == chain[i - 1].hash
  {
  }

  lemma StillAgree(db: Store, db': Store, chain: seq<Block>, i: nat)
    requires Linked(chain) && i < |chain| && db' == db[chain[i].hash := chain[i]]
    requires forall k :: i <= k < |chain| ==> HashesAgree(db, chain[k])
    ensures forall k :: i < k < |chain| ==> HashesAgree(db', chain[k])
  {
    forall k | i < k < |chain| ensures HashesAgree(db', chain[k]) {
      assert chain[i].hash != chain[k].hash;
    }
  }

  // -------------------------------------------------------------------------
  // Regenerating the pruned state
  // -------------------------------------------------------------------------

  ghost function Reversed(s: seq<Block>): (r: seq<Block>)
    ensures |r| == |s| && forall i :: 0 <= i < |s| ==> r[i] == s[|s| - 1 - i]
  {
    seq(|s|, i requires 0 <= i < |s| => s[|s| - 1 - i])
  }

  ghost function Flatten(batches: seq<seq<Block>>): seq<Block> {
    if batches == [] then [] else Flatten(batches[..|batches| - 1]) + batches[|batches| - 1]
  }

  ghost function Memory(size: Block -> nat, batch: seq<Block>): nat {
    if batch == [] then 0 else Memory(size, batch[..|batch| - 1]) + size(batch[|batch| - 1])
  }

  ghost predicate Full(size: Block -> nat, batch: seq<Block>) {
    |batch| >= MAX_BATCH || Memory(size, batch) > MAX_MEMORY
  }

  /** A batch of legal size that was not full before its last block. */
  ghost predicate WellSized(size: Block -> nat, batch: seq<Block>) {
    0 < |batch| <= MAX_BATCH && !Full(size, batch[..|batch| - 1])
  }

  /** No stored ancestor of the block, itself included, has its state. */
  ghost predicate Pruned(db: Store, b: Block, hasState: Root -> bool)
    requires WellFormed(db)
  {
    forall n :: Ancestor(db, b, n).Some? ==> !hasState(Ancestor(db, b, n).value.root)
  }

  /** From the given header down to the nearest block with state: the hashes and numbers in between. */
  method CollectPruned(db: Store, last: Option<Block>, hasState: Root -> bool)
    returns (found: bool, keys: seq<(Hash, nat)>, ghost pending: seq<Block>, ghost base: Block)
    requires WellFormed(db) && (last.Some? ==> Stored(db, last.value))
    ensures found ==> last.Some? && Walk(db, last.value, pending, base) && hasState(base.root)
    ensures found ==> forall i :: 0 <= i < |pending| ==> !hasState(pending[i].root) && Stored(db, pending[i])
    ensures found ==> |keys| == |pending|
    ensures found ==> forall i :: 0 <= i < |keys| ==> keys[i] == (pending[i].hash, pending[i].number)
    ensures last.Some? ==> (found <==> !Pruned(db, last.value, hasState))
  {
    found, keys, pending := false, [], [];
    if last.None? {
      base := Block(0, 0, 0, 0, 0, []);
      return;
    }
    var parent := last.value;
    base := parent;
    while !hasState(parent.root)
      invariant base == parent && Walk(db, last.value, pending, parent) && Stored(db, parent) && |keys| == |pending|
      invariant forall i :: 0 <= i < |pending| ==> !hasState(pending[i].root) && Stored(db, pending[i])
      invariant forall i :: 0 <= i < |keys| ==> keys[i] == (pending[i].hash, pending[i].number)
      invariant forall n :: parent.number < n && Ancestor(db, last.value, n).Some? ==>
                  !hasState(Ancestor(db, last.value, n).value.root)
      decreases parent.number
    {
      forall n: nat | n <= parent.number ensures Ancestor(db, last.value, n) == Ancestor(db, parent, n) {
        AncestorStep(db, last.value, parent.number, n);
      }
      var p := Parent(db, parent);
      if p.None? {
        return;
      }
      WalkStep(db, last.value, pending, parent);
      keys := keys + [(parent.hash, parent.number)];
      pending := pending + [parent];
      parent := p.value;
      base := parent;
    }
    found := true;
    assert Ancestor(db, last.value, parent.number) == Some(parent);
  }

  datatype ImportStep = Imported | ImportFailed | ImportStopped

  datatype ImportStatus = AllImported | Failed | Stopped

  /** Full batches have been handed over, and with the blocks held back they make up done. */
  ghost predicate Progress(size: Block -> nat, batches: seq<seq<Block>>, blocks: seq<Block>, done: seq<Block>) {
    && Flatten(batches) + blocks == done
    && !Full(size, blocks)
    && forall k :: 0 <= k < |batches| ==> WellSized(size, batches[k]) && Full(size, batches[k])
  }

  /**
   The batches, in order, are a stretch from the start of the path. Each was filled block by block until full;
   only one that ends the path may be smaller.
   */
  ghost predicate Batched(size: Block -> nat, batches: seq<seq<Block>>, path: seq<Block>) {
    && Flatten(batches) <= path
    && (forall k :: 0 <= k < |batches| ==> WellSized(size, batches[k]))
    && (forall k :: 0 <= k < |batches| && !Full(size, batches[k]) ==> k == |batches| - 1 && Flatten(batches) == path)
  }

  /**
   How the import ends, given how its last batch did. A shutdown is only looked for after a full batch, not
   after what is left over at the end.
   */
  ghost function StatusOf(size: Block -> nat, step: nat -> ImportStep, batches: seq<seq<Block>>): ImportStatus {
    if batches == [] then AllImported
    else
      match step(|batches| - 1)
      case Imported => AllImported
      case ImportFailed => Failed
      case ImportStopped => if Full(size, batches[|batches| - 1]) then Stopped else AllImported
  }

  /** How large a batch may get, and what the outcome says about the last one, in numbers. */
  lemma BatchOutcome(size: Block -> nat, step: nat -> ImportStep, batches: seq<seq<Block>>, path: seq<Block>, status: ImportStatus)
    requires Batched(size, batches, path) && Ended(size, step, batches, path, status)
    ensures forall k :: 0 <= k < |batches| ==>
              && 0 < |batches[k]| <= 2048 && Memory(size, batches[k][..|batches[k]| - 1]) <= 67108864
              && (|batches[k]| == 2048 || Memory(size, batches[k]) > 67108864 || (k == |batches| - 1 && Flatten(batches) == path))
    ensures status == Failed <==> batches != [] && step(|batches| - 1) == ImportFailed
    ensures status == Stopped <==>
              && batches != [] && step(|batches| - 1) == ImportStopped
              && (|batches[|batches| - 1]| == 2048 || Memory(size, batches[|batches| - 1]) > 67108864)
    ensures status != AllImported ==> forall k :: 0 <= k < |batches| - 1 ==> step(k) == Imported
  {
    hide Flatten, Memory;
    forall k | 0 <= k < |batches| ensures WellSized(size, batches[k]) {
    }
  }

  /** Every batch but the last was imported, and the path is covered unless the last one ended the import. */
  ghost predicate Ended(size: Block -> nat, step: nat -> ImportStep, batches: seq<seq<Block>>, path: seq<Block>, status: ImportStatus) {
    && (forall k :: 0 <= k < |batches| - 1 ==> step(k) == Imported)
    && status == StatusOf(size, step, batches)
    && (status == AllImported ==> Flatten(batches) == path)
  }

  /**
   Hands the collected blocks to the importer, oldest first, in batches. step says how the k-th import ends.
   The batches are exactly the path, cut greedily; an import that fails or a shutdown leaves a prefix of it.
   */
  method ImportBatches(db: Store, keys: seq<(Hash, nat)>, ghost pending: seq<Block>, size: Block -> nat, step: nat -> ImportStep)
    returns (status: ImportStatus, batches: seq<seq<Block>>)
    requires |keys| == |pending|
    requires forall i :: 0 <= i < |keys| ==> Stored(db, pending[i]) && keys[i] == (pending[i].hash, pending[i].number)
    ensures Batched(size, batches, Reversed(pending))
    ensures Ended(size, step, batches, Reversed(pending), status)
  {
    hide *;
    ghost var path := Reversed(pending);
    Retrieved(db, keys, pending);
    NothingDone(size);
    batches := [];
    var blocks: seq<Block> := [];
    var memory := 0;
    var i := |keys|;
    ghost var done: seq<Block> := [];
    while i > 0
      invariant 0 <= i <= |keys| == |path| && done == path[..|keys| - i]
      invariant forall k :: 0 <= k < |keys| ==> Retrieves(db, keys[k], path, |keys| - 1 - k)
      invariant memory == Memory(size, blocks) && Progress(size, batches, blocks, done)
      invariant forall k :: 0 <= k < |batches| ==> step(k) == Imported
    {
      i := i - 1;
      var block := GetBlock(db, keys[i].0, keys[i].1).value;
      NextOnPath(path, |keys| - i - 1);
      AddBlock(size, batches, blocks, block, done);
      done := done + [block];
      memory := memory + size(block);
      blocks := blocks + [block];
      if |blocks| >= MAX_BATCH || memory > MAX_MEMORY {
        var k := |batches|;
        batches := batches + [blocks];
        blocks, memory := [], 0;
        EndsEarly(size, step, batches, path, |done|);
        match step(k) {
          case Imported =>
          case ImportFailed => return Failed, batches;
          case ImportStopped => return Stopped, batches;
        }
      }
    }
    assert path[..|keys|] == path;
    EndsOnPath(size, step, batches, blocks, path);
    status := AllImported;
    if |blocks| > 0 {
      if step(|batches|) == ImportFailed {
        status := Failed;
      }
      batches := batches + [blocks];
    }
  }

  ghost predicate Retrieves(db: Store, key: (Hash, nat), path: seq<Block>, k: int)
    ensures Retrieves(db, key, path, k) ==> 0 <= k < |path| && GetBlock(db, key.0, key.1) == Some(path[k])
  {
    0 <= k < |path| && GetBlock(db, key.0, key.1) == Some(path[k])
  }

  lemma Retrieved(db: Store, keys: seq<(Hash, nat)>, pending: seq<Block>)
    requires |keys| == |pending|
    requires forall i :: 0 <= i < |keys| ==> Stored(db, pending[i]) && keys[i] == (pending[i].hash, pending[i].number)
    ensures forall k :: 0 <= k < |keys| ==> Retrieves(db, keys[k], Reversed(pending), |keys| - 1 - k)
  {
  }

  lemma NextOnPath(path: seq<Block>, k: nat)
    requires k < |path|
    ensures path[..k + 1] == path[..k] + [path[k]]
  {
  }

  lemma NothingDone(size: Block -> nat)
    ensures Progress(size, [], [], []) && Memory(size, []) == 0 && !Full(size, [])
  {
  }

  lemma NotFull(size: Block -> nat, batches: seq<seq<Block>>, blocks: seq<Block>, done: seq<Block>)
    requires Progress(size, batches, blocks, done)
    ensures !Full(size, blocks)
  {
  }

  lemma FlattenAppend(batches: seq<seq<Block>>, batch: seq<Block>)
    ensures Flatten(batches + [batch]) == Flatten(batches) + batch
  {
    assert (batches + [batch])[..|batches|] == batches;
  }

  lemma MemoryAppend(size: Block -> nat, blocks: seq<Block>, b: Block)
    ensures Memory(size, blocks + [b]) == Memory(size, blocks) + size(b)
    ensures Full(size, blocks + [b]) <==> |blocks| + 1 >= MAX_BATCH || Memory(size, blocks) + size(b) > MAX_MEMORY
    ensures !Full(size, blocks) ==> WellSized(size, blocks + [b])
  {
    assert (blocks + [b])[..|blocks|] == blocks;
  }

  /** One more block completes a full batch. */
  lemma HandOver(size: Block -> nat, batches: seq<seq<Block>>, blocks: seq<Block>, b: Block, done: seq<Block>)
    requires Progress(size, batches, blocks, done) && Full(size, blocks + [b]) && WellSized(size, blocks + [b])
    ensures Progress(size, batches + [blocks + [b]], [], done + [b])
  {
    hide Flatten, Full, WellSized;
    FlattenAppend(batches, blocks + [b]);
    NothingDone(size);
    assert Flatten(batches + [blocks + [b]]) + [] == done + [b];
  }

  /** One more block is held back. */
  lemma HoldBack(size: Block -> nat, batches: seq<seq<Block>>, blocks: seq<Block>, b: Block, done: seq<Block>)
    requires Progress(size, batches, blocks, done) && !Full(size, blocks + [b])
    ensures Progress(size, batches, blocks + [b], done + [b])
  {
    hide Flatten, Full, WellSized;
    assert Flatten(batches) + (blocks + [b]) == done + [b];
  }

  /** One more block, with the memory it takes: the batch is full or it is not. */
  lemma AddBlock(size: Block -> nat, batches: seq<seq<Block>>, blocks: seq<Block>, b: Block, done: seq<Block>)
    requires Progress(size, batches, blocks, done)
    ensures Memory(size, []) == 0 && Memory(size, blocks + [b]) == Memory(size, blocks) + size(b)
    ensures if |blocks| + 1 >= MAX_BATCH || Memory(size, blocks) + size(b) > MAX_MEMORY
            then Progress(size, batches + [blocks + [b]], [], done + [b])
            else Progress(size, batches, blocks + [b], done + [b])
  {
    hide *;
    NothingDone(size);
    NotFull(size, batches, blocks, done);
    MemoryAppend(size, blocks, b);
    if Full(size, blocks + [b]) {
      HandOver(size, batches, blocks, b, done);
    } else {
      HoldBack(size, batches, blocks, b, done);
    }
  }

  /** What has been handed over is a prefix of the path, in full batches. */
  lemma Handed(size: Block -> nat, batches: seq<seq<Block>>, blocks: seq<Block>, path: seq<Block>, n: nat)
    requires n <= |path| && Progress(size, batches, blocks, path[..n])
    ensures Batched(size, batches, path) && (blocks == [] && n == |path| ==> Flatten(batches) == path)
  {
    assert Flatten(batches) <= path[..n] <= path;
    assert path[..|path|] == path;
  }

  lemma SmallerNotFull(size: Block -> nat, blocks: seq<Block>)
    requires !Full(size, blocks) && blocks != []
    ensures WellSized(size, blocks)
  {
  }

  lemma LastBatch(size: Block -> nat, batches: seq<seq<Block>>, blocks: seq<Block>, path: seq<Block>)
    requires Progress(size, batches, blocks, path) && blocks != []
    ensures Batched(size, batches + [blocks], path) && Flatten(batches + [blocks]) == path
  {
    hide Full, Flatten, Memory;
    SmallerNotFull(size, blocks);
    FlattenAppend(batches, blocks);
  }

  /** A full batch that fails, or after which a shutdown is seen, ends the import. */
  lemma EndsEarly(size: Block -> nat, step: nat -> ImportStep, batches: seq<seq<Block>>, path: seq<Block>, n: nat)
    requires n <= |path| && Progress(size, batches, [], path[..n]) && batches != []
    requires forall k :: 0 <= k < |batches| - 1 ==> step(k) == Imported
    ensures Batched(size, batches, path)
    ensures step(|batches| - 1) == ImportFailed ==> Ended(size, step, batches, path, Failed)
    ensures step(|batches| - 1) == ImportStopped ==> Ended(size, step, batches, path, Stopped)
  {
    Handed(size, batches, [], path, n);
    hide Flatten, Batched;
  }

  /** Once the whole path was seen, what is left over decides, if there is any. */
  lemma EndsOnPath(size: Block -> nat, step: nat -> ImportStep, batches: seq<seq<Block>>, blocks: seq<Block>, path: seq<Block>)
    requires Progress(size, batches, blocks, path)
    requires forall k :: 0 <= k < |batches| ==> step(k) == Imported
    ensures if blocks == [] then Batched(size, batches, path) && Ended(size, step, batches, path, AllImported)
            else
              && Batched(size, batches + [blocks], path)
              && Ended(size, step, batches + [blocks], path, if step(|batches|) == ImportFailed then Failed else AllImported)
  {
    assert path[..|path|] == path;
    Handed(size, batches, blocks, path, |path|);
    if blocks != [] {
      LastBatch(size, batches, blocks, path);
    }
    hide Batched, Flatten;
  }

  datatype SideOutcome =
    | GhostStateAttack
    | SideStored
    | MissingParent
    | Reimported(status: ImportStatus)

  /** The batches are the stateless stretch above base, oldest first, as far as the imports got. */
  ghost predicate Reimports(db: Store, last: Block, hasState: Root -> bool, size: Block -> nat, step: nat -> ImportStep,
                            pending: seq<Block>, base: Block, status: ImportStatus, batches: seq<seq<Block>>)
  {
    && Walk(db, last, pending, base) && hasState(base.root)
    && (forall i :: 0 <= i < |pending| ==> !hasState(pending[i].root))
    && Batched(size, batches, Reversed(pending))
    && Ended(size, step, batches, Reversed(pending), status)
  }

  /**
   The whole side chain import. It ends early exactly when a block of the pruned stretch repeats a canonical state.
   Otherwise the stretch is stored with exact totals; only when its total reaches that of the head is the pruned
   stretch re-imported, from the child of the nearest ancestor with state up to the last stored block. The effect of
   those imports themselves is not part of this method.
   */
  method InsertSideChain(bc: BlockChain, it: InsertIterator, hasState: Root -> bool, size: Block -> nat, step: nat -> ImportStep)
    returns (outcome: SideOutcome, batches: seq<seq<Block>>, ghost pending: seq<Block>, ghost base: Block)
    requires bc.Valid() && it.Valid() && 0 <= it.index < |it.chain| && Linked(it.chain)
    requires forall i :: 0 <= i < |it.chain| ==> HashesAgree(bc.blocks, it.chain[i])
    requires Parent(bc.blocks, it.chain[it.index]).Some?
    modifies bc`blocks, bc`td, it
    ensures bc.Valid() && it.Valid() && Grows(old(bc.blocks), bc.blocks)
    ensures old(it.index) <= it.index <= |it.chain|
    ensures bc.blocks == WithBlocks(old(bc.blocks), it.chain[old(it.index)..it.index])
    ensures outcome.GhostStateAttack? <==>
              Attacked(old(bc.blocks), bc.canon, bc.current, it.chain, old(it.index), PrunedEnd(it, old(it.index)))
    ensures !outcome.GhostStateAttack? ==> it.index == PrunedEnd(it, old(it.index)) && WellFormed(bc.blocks)
    ensures !outcome.GhostStateAttack? ==>
              (outcome.SideStored? <==>
               TotalDifficulty(bc.blocks, it.chain[it.index - 1]) < TotalDifficulty(bc.blocks, bc.current))
    ensures !outcome.GhostStateAttack? && !outcome.SideStored? ==>
              (outcome.MissingParent? <==> Pruned(bc.blocks, it.chain[it.index - 1], hasState))
    ensures outcome.Reimported? ==>
              Reimports(bc.blocks, it.chain[it.index - 1], hasState, size, step, pending, base, outcome.status, batches)
    ensures !outcome.Reimported? ==> batches == []
  {
    hide *;
    batches, pending, base := [], [], bc.current;
    var written := WriteSideBlocks(bc, it);
    HeadEntry(bc, it);
    if written.GhostState? {
      return GhostStateAttack, [], [], bc.current;
    }
    var localTd := bc.td[bc.current.hash];
    if localTd > written.total {
      return SideStored, [], [], bc.current;
    }
    var last := it.Previous();
    assert last == Some(it.chain[it.index - 1]);
    var found, keys;
    found, keys, pending, base := CollectPruned(bc.blocks, last, hasState);
    if !found {
      return MissingParent, [], [], bc.current;
    }
    var status;
    status, batches := ImportBatches(bc.blocks, keys, pending, size, step);
    assert Reimports(bc.blocks, it.chain[it.index - 1], hasState, size, step, pending, base, status, batches) by {
      Assembled(bc.blocks, it.chain[it.index - 1], hasState, size, step, pending, base, status, batches);
    }
    outcome := Reimported(status);
  }

  lemma HeadEntry(bc: BlockChain, it: InsertIterator)
    requires bc.Valid() && it.Valid()
    ensures WellFormed(bc.blocks) && bc.current.hash in bc.td
    ensures bc.td[bc.current.hash] == TotalDifficulty(bc.blocks, bc.current)
    ensures it.index <= |it.chain|
  {
  }

  lemma Assembled(db: Store, last: Block, hasState: Root -> bool, size: Block -> nat, step: nat -> ImportStep,
                  pending: seq<Block>, base: Block, status: ImportStatus, batches: seq<seq<Block>>)
    requires Walk(db, last, pending, base) && hasState(base.root)
    requires forall i :: 0 <= i < |pending| ==> !hasState(pending[i].root)
    requires Batched(size, batches, Reversed(pending)) && Ended(size, step, batches, Reversed(pending), status)
    ensures Reimports(db, last, hasState, size, step, pending, base, status, batches)
  {
  }
}
