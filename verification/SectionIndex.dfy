/** Section heads and what ties them to the canonical chain. */
module SectionIndex {
  import opened Ancestry
  import opened Wrappers

  /** Number of the last block of section i. */
  function End(size: nat, i: nat): (n: int)
    ensures n == i * size + size - 1
  {
    (i + 1) * size - 1
  }

  /** Reading a missing database entry yields the zero hash. */
  function Get(m: map<nat, Hash>, i: nat): Hash {
    if i in m then m[i] else NO_HASH
  }

  /** The store as the chain writes it: a block above number zero names a parent. */
  ghost predicate Sound(db: Store) {
    && WellFormed(db)
    && forall h :: h in db && db[h].number > 0 ==> db[h].parent != NO_HASH
  }

  /** k stored blocks with consecutive numbers, each the child of the next, lead from h at number top down to from. */
  ghost predicate Spans(db: Store, from: Hash, h: Hash, top: int, k: nat)
    decreases k
  {
    if k == 0 then h == from
    else top >= 0 && GetBlock(db, h, top).Some? && Spans(db, from, db[h].parent, top - 1, k - 1)
  }

  /** The hash below section i. */
  function Below(heads: map<nat, Hash>, i: nat): Hash {
    if i == 0 then NO_HASH else Get(heads, i - 1)
  }

  /** The head of section i is present and exactly one section above the head before it. */
  ghost predicate Chains(db: Store, size: nat, heads: map<nat, Hash>, i: nat) {
    i in heads && (i > 0 ==> i - 1 in heads) && Spans(db, Below(heads, i), heads[i], End(size, i), size)
  }

  /** All section heads from the checkpoint on, of the first n sections, are chained. */
  ghost predicate Chained(db: Store, size: nat, heads: map<nat, Hash>, checkpoint: nat, n: nat) {
    forall i :: checkpoint <= i < n ==> Chains(db, size, heads, i)
  }

  /** The canonical index up to number n is one stored ancestry. */
  ghost predicate CanonLinked(db: Store, canon: map<nat, Hash>, n: int) {
    forall m :: 0 <= m <= n ==>
      && m in canon && GetBlock(db, canon[m], m).Some?
      && (m > 0 ==> m - 1 in canon && db[canon[m]].parent == canon[m - 1])
  }

  lemma {:induction false} SpansGrows(db: Store, db': Store, from: Hash, h: Hash, top: int, k: nat)
    requires Grows(db, db') && Spans(db, from, h, top, k)
    ensures Spans(db', from, h, top, k)
    decreases k
  {
    if k > 0 {
      SpansGrows(db, db', from, db[h].parent, top - 1, k - 1);
    }
  }

  lemma ChainedGrows(db: Store, db': Store, size: nat, heads: map<nat, Hash>, checkpoint: nat, n: nat)
    requires Grows(db, db') && Chained(db, size, heads, checkpoint, n)
    ensures Chained(db', size, heads, checkpoint, n)
  {
    forall i | checkpoint <= i < n ensures Chains(db', size, heads, i) {
      assert Chains(db, size, heads, i);
      SpansGrows(db, db', Below(heads, i), heads[i], End(size, i), size);
    }
  }

  /** Nothing that ends above number zero spans down to the zero hash. */
  lemma {:induction false} SpanBottom(db: Store, from: Hash, h: Hash, top: int, k: nat)
    requires Sound(db) && Spans(db, from, h, top, k) && 0 < k <= top
    ensures from != NO_HASH
    decreases k
  {
    if k > 1 {
      SpanBottom(db, from, db[h].parent, top - 1, k - 1);
    }
  }

  /** A span that starts on the canonical chain stays on it. */
  lemma {:induction false} SpanCanonical(db: Store, canon: map<nat, Hash>, from: Hash, h: Hash, top: nat, k: nat)
    requires CanonLinked(db, canon, top) && canon[top] == h && Spans(db, from, h, top, k) && k <= top
    ensures canon[top - k] == from
    decreases k
  {
    if k > 0 {
      assert db[canon[top]].parent == canon[top - 1];
      SpanCanonical(db, canon, from, db[h].parent, top - 1, k - 1);
    }
  }

  lemma EndBefore(size: nat, i: nat)
    requires size > 0
    ensures i > 0 ==> End(size, i) == End(size, i - 1) + size
    ensures End(size, i) >= i
    ensures size <= End(size, i) || i == 0
  {
    if i > 0 {
      EndBefore(size, i - 1);
    }
  }

  /** If the last head is canonical, so are all heads down to the checkpoint's own. */
  lemma {:induction false} HeadsCanonical(db: Store, size: nat, canon: map<nat, Hash>, heads: map<nat, Hash>,
                                          checkpoint: nat, n: nat, i: nat)
    requires size > 0 && Chained(db, size, heads, checkpoint, n) && checkpoint < n
    requires CanonLinked(db, canon, End(size, n - 1)) && Get(heads, n - 1) == Get(canon, End(size, n - 1))
    requires checkpoint <= i + 1 && i < n
    ensures i in heads && heads[i] == Get(canon, End(size, i))
    decreases n
  {
    EndBefore(size, n - 1);
    assert Chains(db, size, heads, n - 1);
    if i < n - 1 {
      SpanCanonical(db, canon, heads[n - 2], heads[n - 1], End(size, n - 1), size);
      if i < n - 2 {
        HeadsCanonical(db, size, canon, heads, checkpoint, n - 1, i);
      }
    }
  }

  /** The heads left after the sections from the target on were removed. */
  function Truncated(heads: map<nat, Hash>, target: nat, stored: nat): map<nat, Hash> {
    map i | i in heads && !(target <= i < stored) :: heads[i]
  }
}
