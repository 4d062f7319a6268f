/** Garbage collection of in-memory state tries on a full, non-archive node. */
module TrieCollector {
  import opened Ancestry

  const TRIES_IN_MEMORY: nat := 128

  datatype Entry = Entry(root: Root, number: nat)

  /** How often a root occurs in a list of queue entries. */
  ghost function Count(entries: seq<Entry>, root: Root): nat {
    if entries == [] then 0
    else Count(entries[..|entries| - 1], root) + if entries[|entries| - 1].root == root then 1 else 0
  }

  /** The entries above a number, in order. */
  ghost function Newer(entries: seq<Entry>, number: nat): seq<Entry> {
    if entries == [] then []
    else Newer(entries[..|entries| - 1], number) +
         if entries[|entries| - 1].number > number then [entries[|entries| - 1]] else []
  }

  lemma {:induction false} CountConcat(a: seq<Entry>, b: seq<Entry>, root: Root)
    ensures Count(a + b, root) == Count(a, root) + Count(b, root)
  {
    if b == [] {
      assert a + b == a;
    } else {
      assert (a + b)[..|a + b| - 1] == a + b[..|b| - 1];
      CountConcat(a, b[..|b| - 1], root);
    }
  }

  lemma {:induction false} NewerConcat(a: seq<Entry>, b: seq<Entry>, number: nat)
    ensures Newer(a + b, number) == Newer(a, number) + Newer(b, number)
  {
    if b == [] {
      assert a + b == a;
    } else {
      assert (a + b)[..|a + b| - 1] == a + b[..|b| - 1];
      NewerConcat(a, b[..|b| - 1], number);
    }
  }

  lemma Single(e: Entry, root: Root, number: nat)
    ensures Count([e], root) == if e.root == root then 1 else 0
    ensures Newer([e], number) == if e.number > number then [e] else []
  {
    assert [e][..0] == [];
  }

  lemma Without(entries: seq<Entry>, i: nat, root: Root, number: nat)
    requires i < |entries|
    ensures var rest := entries[..i] + entries[i + 1..];
            && Count(entries, root) == Count(rest, root) + (if entries[i].root == root then 1 else 0)
            && (entries[i].number <= number ==> Newer(rest, number) == Newer(entries, number))
  {
    hide Count, Newer;
    var a, e, b := entries[..i], [entries[i]], entries[i + 1..];
    assert a + (e + b) == entries;
    Single(entries[i], root, number);
    CountConcat(a, b, root);
    CountConcat(a, e + b, root);
    CountConcat(e, b, root);
    NewerConcat(a, b, number);
    NewerConcat(a, e + b, number);
    NewerConcat(e, b, number);
    assert entries[i].number <= number ==> [] + Newer(b, number) == Newer(b, number);
  }

  lemma {:induction false} AllNewer(entries: seq<Entry>, number: nat)
    requires forall k :: 0 <= k < |entries| ==> entries[k].number > number
    ensures Newer(entries, number) == entries
  {
    if entries != [] {
      AllNewer(entries[..|entries| - 1], number);
    }
  }

  lemma {:induction false} NewerIsNewer(entries: seq<Entry>, number: nat, k: nat)
    requires k < |Newer(entries, number)|
    ensures Newer(entries, number)[k].number > number
  {
    if k < |Newer(entries[..|entries| - 1], number)| {
      NewerIsNewer(entries[..|entries| - 1], number, k);
    }
  }

  class Collector {
    /** The priority queue, in no particular order. */
    var queue: seq<Entry>
    /** Outstanding references that the trie database holds for roots. */
    var references: multiset<Root>
    ghost var everReferenced: multiset<Root>
    ghost var everDereferenced: multiset<Root>

    /**
     Conservation: each root was dereferenced exactly as often as it was referenced, less the times it is
     still queued; and the outstanding references are those queued.
     */
    ghost predicate Valid()
      reads this
    {
      forall r: Root :: references[r] == Count(queue, r) && everReferenced[r] == everDereferenced[r] + Count(queue, r)
    }

    constructor ()
      ensures Valid() && queue == [] && everReferenced == multiset{}
    {
      queue := [];
      references := multiset{};
      everReferenced := multiset{};
      everDereferenced := multiset{};
    }

    method Push(root: Root, number: nat)
      requires Valid()
      modifies this
      ensures Valid() && queue == old(queue) + [Entry(root, number)]
      ensures everReferenced == old(everReferenced) + multiset{root} && everDereferenced == old(everDereferenced)
    {
      hide Count;
      var entry := Entry(root, number);
      forall r: Root ensures Count(queue + [entry], r) == Count(queue, r) + if r == root then 1 else 0 {
        CountConcat(queue, [entry], r);
        Single(entry, r, 0);
      }
      references := references + multiset{root};
      everReferenced := everReferenced + multiset{root};
      queue := queue + [entry];
    }

    /** The entry of highest priority, which is the one with the least number. */
    method Least() returns (i: nat)
      requires queue != []
      ensures i < |queue| && forall k :: 0 <= k < |queue| ==> queue[i].number <= queue[k].number
    {
      i := 0;
      for k := 1 to |queue|
        invariant i < |queue| && forall j :: 0 <= j < k ==> queue[i].number <= queue[j].number
      {
        if queue[k].number < queue[i].number {
          i := k;
        }
      }
    }

    /** Takes the entry at i off the queue and gives up its reference. */
    method DereferenceAt(i: nat)
      requires Valid() && i < |queue|
      modifies this
      ensures Valid() && queue == old(queue[..i] + queue[i + 1..])
      ensures everReferenced == old(everReferenced)
      ensures everDereferenced == old(everDereferenced + multiset{queue[i].root})
      ensures forall n: nat :: old(queue[i].number) <= n ==> Newer(queue, n) == Newer(old(queue), n)
    {
      hide Count, Newer;
      var e := queue[i];
      var rest := queue[..i] + queue[i + 1..];
      forall r: Root ensures Count(queue, r) == Count(rest, r) + if e.root == r then 1 else 0 {
        Without(queue, i, r, 0);
      }
      forall n: nat | e.number <= n ensures Newer(rest, n) == Newer(queue, n) {
        Without(queue, i, e.root, n);
      }
      references := references - multiset{e.root};
      everDereferenced := everDereferenced + multiset{e.root};
      queue := rest;
    }

    /** Gives up every root up to the chosen number and keeps exactly the others. */
    method CollectUpTo(chosen: nat)
      requires Valid()
      modifies this
      ensures Valid() && everReferenced == old(everReferenced)
      ensures queue == Newer(old(queue), chosen)
    {
      while queue != []
        invariant Valid() && everReferenced == old(everReferenced)
        invariant Newer(queue, chosen) == Newer(old(queue), chosen)
        decreases |queue|
      {
        var i := Least();
        if queue[i].number > chosen {
          break;
        }
        DereferenceAt(i);
      }
      AllNewer(queue, chosen);
    }

    /**
     What writing a block does with its state root: reference it, queue it, and once the chain is long enough
     give up everything that is 128 or more blocks old.
     */
    method WriteState(root: Root, number: nat)
      requires Valid()
      modifies this
      ensures Valid() && everReferenced == old(everReferenced) + multiset{root}
      ensures queue == if number > 128 then Newer(old(queue) + [Entry(root, number)], number - 128)
                       else old(queue) + [Entry(root, number)]
      ensures number > 128 ==> forall k :: 0 <= k < |queue| ==> queue[k].number > number - 128
    {
      hide Count, Newer, Valid;
      Push(root, number);
      if number > TRIES_IN_MEMORY {
        CollectUpTo(number - TRIES_IN_MEMORY);
        forall k | 0 <= k < |queue| ensures queue[k].number > number - TRIES_IN_MEMORY {
          NewerIsNewer(old(queue) + [Entry(root, number)], number - TRIES_IN_MEMORY, k);
        }
      }
    }

    /** Shutdown drains the queue: no reference is left, and every root was dereferenced as often as referenced. */
    method Stop()
      requires Valid()
      modifies this
      ensures Valid() && queue == [] && references == multiset{}
      ensures everReferenced == old(everReferenced) && everDereferenced == everReferenced
    {
      while queue != []
        invariant Valid() && everReferenced == old(everReferenced)
        decreases |queue|
      {
        var i := Least();
        DereferenceAt(i);
      }
      assert forall r: Root :: references[r] == 0 && everDereferenced[r] == everReferenced[r];
    }
  }
}
