/** Blocks, the block store and the ancestry relation that all chain indexes must agree with. */
module Ancestry {
  import opened Wrappers

  type Hash = nat
  type Root = nat
  type Tx = nat

  const NO_HASH: Hash := 0

  datatype Block = Block(hash: Hash, parent: Hash, number: nat, difficulty: nat, root: Root, txs: seq<Tx>)

  type Store = map<Hash, Block>

  /** A block is stored under its own nonzero hash, and carries some difficulty. */
  ghost predicate WellFormed(db: Store) {
    forall h :: h in db ==> db[h].hash == h != NO_HASH && db[h].difficulty > 0
  }

  ghost predicate Stored(db: Store, b: Block) {
    b.hash in db && db[b.hash] == b
  }

  /** One hash names one block. */
  ghost predicate HashesAgree(db: Store, b: Block) {
    b.hash in db ==> db[b.hash] == b
  }

  function GetBlock(db: Store, hash: Hash, number: nat): Option<Block> {
    if hash in db && db[hash].number == number then Some(db[hash]) else None
  }

  /** The block before the first one would have number 2^64 - 1, under which nothing is stored. */
  function Parent(db: Store, b: Block): (p: Option<Block>)
    ensures p.Some? ==> p.value.number == b.number - 1
  {
    if b.number == 0 then None else GetBlock(db, b.parent, b.number - 1)
  }

  /** The ancestor of b at number n, when all blocks from b down to it are stored. */
  ghost function Ancestor(db: Store, b: Block, n: nat): (a: Option<Block>)
    ensures a.Some? ==> a.value.number == n && n <= b.number
    ensures n == b.number ==> a == Some(b)
    decreases b.number
  {
    if n >= b.number then
      if n == b.number then Some(b) else None
    else
      match Parent(db, b)
      case None => None
      case Some(p) => Ancestor(db, p, n)
  }

  /** The ancestry reaches back to number zero. */
  ghost predicate Rooted(db: Store, b: Block) {
    Ancestor(db, b, 0).Some?
  }

  ghost predicate Grows(db: Store, db': Store) {
    forall h :: h in db ==> h in db' && db'[h] == db[h]
  }

  /** Ancestors of an ancestor are ancestors. */
  lemma {:induction false} AncestorStep(db: Store, b: Block, m: nat, n: nat)
    requires Ancestor(db, b, m).Some? && n <= m
    ensures Ancestor(db, b, n) == Ancestor(db, Ancestor(db, b, m).value, n)
    decreases b.number
  {
    if m < b.number {
      AncestorStep(db, Parent(db, b).value, m, n);
    }
  }

  lemma {:induction false} RootedAll(db: Store, b: Block, n: nat)
    requires Rooted(db, b) && n <= b.number
    ensures Ancestor(db, b, n).Some?
    decreases b.number
  {
    if n < b.number {
      RootedAll(db, Parent(db, b).value, n);
    }
  }

  /** All blocks between a block and an ancestor are ancestors. */
  lemma {:induction false} AncestorDefined(db: Store, b: Block, m: nat, n: nat)
    requires Ancestor(db, b, m).Some? && m <= n <= b.number
    ensures Ancestor(db, b, n).Some?
    decreases b.number
  {
    if n < b.number {
      AncestorDefined(db, Parent(db, b).value, m, n);
    }
  }

  lemma {:induction false} AncestorStored(db: Store, b: Block, n: nat)
    requires WellFormed(db) && Stored(db, b) && Ancestor(db, b, n).Some?
    ensures Stored(db, Ancestor(db, b, n).value)
    decreases b.number
  {
    if n < b.number {
      AncestorStored(db, Parent(db, b).value, n);
    }
  }

  lemma {:induction false} AncestorGrows(db: Store, db': Store, b: Block, n: nat)
    requires Grows(db, db') && Ancestor(db, b, n).Some?
    ensures Ancestor(db', b, n) == Ancestor(db, b, n)
    decreases b.number
  {
    if n < b.number {
      AncestorGrows(db, db', Parent(db, b).value, n);
    }
  }

  /** The sum of the difficulties along the ancestry. */
  ghost function TotalDifficulty(db: Store, b: Block): nat
    decreases b.number
  {
    b.difficulty +
    match Parent(db, b)
    case None => 0
    case Some(p) => TotalDifficulty(db, p)
  }

  lemma {:induction false} TotalDifficultyGrows(db: Store, db': Store, b: Block)
    requires Grows(db, db') && Rooted(db, b)
    ensures TotalDifficulty(db', b) == TotalDifficulty(db, b)
    decreases b.number
  {
    if b.number > 0 {
      TotalDifficultyGrows(db, db', Parent(db, b).value);
    }
  }

  /** A proper ancestor has strictly less total difficulty. */
  lemma {:induction false} AncestorHasLess(db: Store, b: Block, n: nat)
    requires WellFormed(db) && Stored(db, b) && n < b.number && Ancestor(db, b, n).Some?
    ensures TotalDifficulty(db, Ancestor(db, b, n).value) < TotalDifficulty(db, b)
    decreases b.number
  {
    var p := Parent(db, b).value;
    if n < p.number {
      AncestorHasLess(db, p, n);
    }
  }
}
