/** The ancestor hashes that the BLOCKHASH instruction reads, with a cache that grows as it is queried. */
module BlockHashes {
  import opened Ancestry
  import opened Wrappers

  const TWO64: nat := 0x1_0000_0000_0000_0000

  /** Unsigned 64-bit subtraction. */
  function Sub64(a: nat, b: nat): (r: nat)
    requires a < TWO64 && b < TWO64
    ensures r < TWO64
  {
    if a >= b then a - b else a + TWO64 - b
  }

  /** Nothing is stored under the largest number, which is what the number below zero wraps to. */
  ghost predicate Bounded(db: Store) {
    forall h :: h in db ==> db[h].number < TWO64 - 1
  }

  /** The parent hash met after following k parent links from the reference header. */
  ghost function Link(db: Store, ref: Block, k: nat): Option<Hash> {
    if k == 0 then Some(ref.parent)
    else if k > ref.number then None
    else
      match Link(db, ref, k - 1)
      case None => None
      case Some(h) =>
        match GetBlock(db, h, ref.number - k)
        case None => None
        case Some(b) => Some(b.parent)
  }

  lemma {:induction false} LinkMissing(db: Store, ref: Block, j: nat, k: nat)
    requires Link(db, ref, j).None? && j <= k
    ensures Link(db, ref, k).None?
    decreases k
  {
    if j < k {
      LinkMissing(db, ref, j, k - 1);
    }
  }

  /** What a query must return, whatever was asked before. */
  ghost function Answer(db: Store, ref: Block, n: nat): Hash
    requires ref.number < TWO64 && n < TWO64
  {
    match Link(db, ref, Sub64(Sub64(ref.number, n), 1))
    case None => NO_HASH
    case Some(h) => h
  }

  class HashFn {
    const db: Store
    const ref: Block
    var cache: seq<Hash>

    ghost predicate Valid()
      reads this
    {
      && Bounded(db)
      && ref.number < TWO64
      && |cache| <= ref.number + 1
      && forall i :: 0 <= i < |cache| ==> Link(db, ref, i) == Some(cache[i])
    }

    constructor (db: Store, ref: Block)
      requires Bounded(db) && ref.number < TWO64
      ensures Valid() && this.db == db && this.ref == ref && cache == []
    {
      this.db := db;
      this.ref := ref;
      cache := [];
    }

    method Query(n: nat) returns (h: Hash)
      requires Valid() && n < TWO64
      modifies `cache
      ensures Valid() && old(cache) <= cache
      ensures h == Answer(db, ref, n)
    {
      if |cache| == 0 {
        cache := cache + [ref.parent];
      }
      var idx := Sub64(Sub64(ref.number, n), 1);
      if idx < |cache| {
        return cache[idx];
      }
      var lastHash := cache[|cache| - 1];
      var lastNumber := if |cache| <= ref.number then ref.number - |cache| else TWO64 - 1;
      while true
        invariant Valid() && old(cache) <= cache && 0 < |cache| <= idx
        invariant lastHash == cache[|cache| - 1]
        invariant lastNumber == if |cache| <= ref.number then ref.number - |cache| else TWO64 - 1
        decreases ref.number + 1 - |cache|
      {
        var header := GetBlock(db, lastHash, lastNumber);
        if header.None? {
          assert Link(db, ref, |cache|).None?;
          LinkMissing(db, ref, |cache|, idx);
          return NO_HASH;
        }
        assert Link(db, ref, |cache|) == Some(header.value.parent);
        cache := cache + [header.value.parent];
        lastHash := header.value.parent;
        lastNumber := Sub64(header.value.number, 1);
        if n == lastNumber {
          return lastHash;
        }
      }
    }
  }

  /** Below the reference block, the answer is the hash of its ancestor whenever that ancestor is stored. */
  lemma {:induction false} AnswerIsAncestor(db: Store, ref: Block, n: nat)
    requires WellFormed(db) && ref.number < TWO64 && n < ref.number && Ancestor(db, ref, n).Some?
    ensures Answer(db, ref, n) == Ancestor(db, ref, n).value.hash
  {
    LinkIsAncestor(db, ref, ref.number - 1 - n);
  }

  lemma {:induction false} LinkIsAncestor(db: Store, ref: Block, k: nat)
    requires WellFormed(db) && k < ref.number && Ancestor(db, ref, ref.number - 1 - k).Some?
    ensures Link(db, ref, k) == Some(Ancestor(db, ref, ref.number - 1 - k).value.hash)
  {
    AncestorDefined(db, ref, ref.number - 1 - k, ref.number - 1);
    if k == 0 {
      assert Parent(db, ref).value.hash == ref.parent;
    } else {
      var n := ref.number - k;
      AncestorDefined(db, ref, n - 1, n);
      LinkIsAncestor(db, ref, k - 1);
      AncestorStep(db, ref, n, n - 1);
      var b := Ancestor(db, ref, n).value;
      ProperAncestorStored(db, ref, n);
      assert Parent(db, b).Some? && Parent(db, b).value.hash == b.parent;
    }
  }

  lemma {:induction false} ProperAncestorStored(db: Store, b: Block, n: nat)
    requires WellFormed(db) && n < b.number && Ancestor(db, b, n).Some?
    ensures Stored(db, Ancestor(db, b, n).value)
    decreases b.number
  {
    var p := Parent(db, b).value;
    AncestorStored(db, p, n);
  }

  /** As long as links can be followed, they are the parents of stored ancestors. */
  lemma {:induction false} LinkIsParent(db: Store, ref: Block, k: nat)
    requires k <= ref.number && Link(db, ref, k).Some?
    ensures Ancestor(db, ref, ref.number - k).Some?
    ensures Ancestor(db, ref, ref.number - k).value.parent == Link(db, ref, k).value
  {
    if k > 0 {
      LinkIsParent(db, ref, k - 1);
      AncestorStep(db, ref, ref.number - k + 1, ref.number - k);
    }
  }

  /**
   At and above the reference number the answer is the zero hash. One number wraps around to the parent link
   of the first block, and the answer is zero there exactly when that link is.
   */
  lemma AnswerAboveIsZero(db: Store, ref: Block, n: nat)
    requires WellFormed(db) && ref.number <= n < TWO64
    ensures Answer(db, ref, n) == NO_HASH <==>
            (n == TWO64 - 1 && Rooted(db, ref) ==> Ancestor(db, ref, 0).value.parent == NO_HASH)
  {
    if n == TWO64 - 1 {
      if Link(db, ref, ref.number).Some? {
        LinkIsParent(db, ref, ref.number);
      } else if Rooted(db, ref) && ref.number > 0 {
        LinkIsAncestor(db, ref, ref.number - 1);
        ProperAncestorStored(db, ref, 0);
      }
    }
  }

  /** Any sequence of queries, in any order and with repetitions, is answered as if there were no cache. */
  method QueryAll(fn: HashFn, ns: seq<nat>) returns (hs: seq<Hash>)
    requires fn.Valid() && forall i :: 0 <= i < |ns| ==> ns[i] < TWO64
    modifies fn
    ensures fn.Valid() && |hs| == |ns|
    ensures forall i :: 0 <= i < |ns| ==> hs[i] == Answer(fn.db, fn.ref, ns[i])
  {
    hs := [];
    for i := 0 to |ns|
      invariant fn.Valid() && |hs| == i
      invariant forall k :: 0 <= k < i ==> hs[k] == Answer(fn.db, fn.ref, ns[k])
    {
      var h := fn.Query(ns[i]);
      hs := hs + [h];
    }
  }
}
