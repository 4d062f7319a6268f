/** Rewinding the head to a block with state, optionally beyond a requested state root. */
module Rewind {
  import opened Ancestry
  import opened Wrappers

  const NO_ROOT: Root := 0

  /** Dereferenced is the nil block that a missing parent of a skipped block leads to. */
  datatype Result = Rewound(head: Block, rootNumber: nat) | Dereferenced

  /** What a rewind goes by: the block it starts from, the root asked for, the states there are, and the sync pivot. */
  datatype Query = Query(db: Store, start: Block, root: Root, hasState: Root -> bool, pivot: Option<nat>) {

    ghost predicate RootAt(n: nat) {
      Ancestor(db, start, n).Some? && Ancestor(db, start, n).value.root == root
    }

    /** Walking down from the start, the requested root is met at or above n (always, when none is requested). */
    ghost predicate Reached(n: nat) {
      root == NO_ROOT || exists m :: n <= m && RootAt(m)
    }

    ghost predicate StateAt(n: nat) {
      Ancestor(db, start, n).Some? && hasState(Ancestor(db, start, n).value.root)
    }

    /** The block at n may become the head: it has state and lies at or below the requested root. */
    ghost predicate Eligible(n: nat) {
      StateAt(n) && Reached(n)
    }

    /** A stateless block at or below the pivot turns the walk to genesis. */
    ghost predicate PassesPivot(n: nat) {
      pivot.Some? && n <= pivot.value && Ancestor(db, start, n).Some? && !StateAt(n)
    }

    /** The walk comes to the ancestor at n: nothing above it ends the walk. */
    ghost predicate Visited(n: nat) {
      Ancestor(db, start, n).Some? && forall m :: n < m ==> !Eligible(m) && !PassesPivot(m)
    }

    /** The walk ends at n with that block as the head. */
    ghost predicate Settles(n: nat) {
      Visited(n) && StateAt(n) && (n == 0 || Reached(n))
    }

    /** The walk skips a block with state above the requested root whose parent is missing. */
    ghost predicate Strands(n: nat) {
      n > 0 && Visited(n) && StateAt(n) && !Reached(n) && Ancestor(db, start, n - 1).None?
    }

    /** The number reported for the root: the highest one with it, if the walk comes to it, else zero. */
    ghost predicate Reports(number: nat) {
      if root != NO_ROOT && exists m :: Visited(m) && RootAt(m)
      then Visited(number) && RootAt(number) && forall m :: number < m ==> !RootAt(m)
      else number == 0
    }
  }

  /** Nothing below n is visited when the walk ends at n or cannot go on. */
  lemma LastVisited(q: Query, n: nat, m: nat)
    requires q.Visited(n) && q.Visited(m)
    requires q.Eligible(n) || q.PassesPivot(n) || n == 0 || Ancestor(q.db, q.start, n - 1).None?
    ensures n <= m
  {
    if m < n && !q.Eligible(n) && !q.PassesPivot(n) {
      AncestorDefined(q.db, q.start, m, n - 1);
    }
  }

  /** The walk is at b and knows which root it has met above it. */
  ghost predicate Walking(q: Query, b: Block, beyondRoot: bool, rootNumber: nat) {
    && Ancestor(q.db, q.start, b.number) == Some(b) && q.Visited(b.number)
    && (q.root == NO_ROOT ==> beyondRoot && rootNumber == 0)
    && (q.root != NO_ROOT && beyondRoot ==>
          b.number <= rootNumber && q.RootAt(rootNumber) && q.Visited(rootNumber) && forall m :: rootNumber < m ==> !q.RootAt(m))
    && (!beyondRoot ==> rootNumber == 0 && forall m :: b.number < m ==> !q.RootAt(m))
  }

  /** And it has looked at b. */
  ghost predicate Checked(q: Query, b: Block, beyondRoot: bool, rootNumber: nat) {
    Walking(q, b, beyondRoot, rootNumber) && (!beyondRoot ==> !q.RootAt(b.number))
  }

  /**
   The new head is the highest eligible ancestor that the walk comes to, or a first block with state, or genesis when
   there is neither; the walk dereferences nil exactly when it strands. The reported number is that of the highest
   block with the requested root, if the walk comes to it, and the head is not above it.
   */
  ghost predicate Correct(q: Query, genesis: Block, r: Result) {
    && (forall n :: q.Settles(n) ==> r.Rewound? && Ancestor(q.db, q.start, n) == Some(r.head))
    && (r.Dereferenced? <==> exists n :: q.Strands(n))
    && (r.Rewound? && (forall n :: !q.Settles(n)) ==> r.head == genesis)
    && (r.Rewound? ==> q.Reports(r.rootNumber))
    && (r.Rewound? && r.rootNumber != 0 ==> r.head.number <= r.rootNumber)
  }

  method RewindHead(q: Query, genesis: Block) returns (r: Result)
    requires genesis.number == 0
    ensures Correct(q, genesis, r)
    ensures Rooted(q.db, q.start) ==> r.Rewound?
  {
    assert NO_ROOT == 0;
    hide *;
    var b, beyondRoot, rootNumber := q.start, q.root == NO_ROOT, 0;
    WalkStarts(q);
    while true
      invariant Walking(q, b, beyondRoot, rootNumber)
      decreases b.number
    {
      RootCheck(q, b, beyondRoot, rootNumber);
      if q.root != NO_ROOT && !beyondRoot && b.root == q.root {
        beyondRoot, rootNumber := true, b.number;
      }
      var p := Parent(q.db, b);
      if !q.hasState(b.root) {
        if q.pivot.None? || b.number > q.pivot.value {
          if p.Some? {
            WalkOn(q, b, beyondRoot, rootNumber);
            b := p.value;
            continue;
          }
        }
        EndsAtGenesis(q, b, beyondRoot, rootNumber, genesis);
        return Rewound(genesis, rootNumber);
      }
      if beyondRoot || b.number == 0 {
        EndsHere(q, b, beyondRoot, rootNumber, genesis);
        return Rewound(b, rootNumber);
      }
      if p.None? {
        EndsStranded(q, b, rootNumber, genesis);
        return Dereferenced;
      }
      WalkOn(q, b, beyondRoot, rootNumber);
      b := p.value;
    }
  }

  lemma WalkStarts(q: Query)
    ensures Walking(q, q.start, q.root == NO_ROOT, 0)
  {
  }

  lemma RootCheck(q: Query, b: Block, beyondRoot: bool, rootNumber: nat)
    requires Walking(q, b, beyondRoot, rootNumber)
    ensures if q.root != NO_ROOT && !beyondRoot && b.root == q.root then Checked(q, b, true, b.number)
            else Checked(q, b, beyondRoot, rootNumber)
  {
  }

  /** The parent is the ancestor one lower. */
  lemma ParentIsNext(q: Query, b: Block)
    requires Ancestor(q.db, q.start, b.number) == Some(b)
    ensures b.number > 0 ==> Ancestor(q.db, q.start, b.number - 1) == Parent(q.db, b)
  {
    if b.number > 0 {
      AncestorStep(q.db, q.start, b.number, b.number - 1);
    }
  }

  /** At b the requested root has been met exactly if the walk knows so. */
  lemma MetIsReached(q: Query, b: Block, beyondRoot: bool, rootNumber: nat)
    requires Checked(q, b, beyondRoot, rootNumber)
    ensures q.Reached(b.number) <==> beyondRoot
    ensures q.StateAt(b.number) <==> q.hasState(b.root)
  {
  }

  lemma WalkOn(q: Query, b: Block, beyondRoot: bool, rootNumber: nat)
    requires Checked(q, b, beyondRoot, rootNumber) && Parent(q.db, b).Some?
    requires if q.hasState(b.root) then !beyondRoot else q.pivot.None? || b.number > q.pivot.value
    ensures Walking(q, Parent(q.db, b).value, beyondRoot, rootNumber)
  {
    ParentIsNext(q, b);
    MetIsReached(q, b, beyondRoot, rootNumber);
    assert !q.Eligible(b.number) && !q.PassesPivot(b.number);
    assert q.Visited(b.number - 1);
    hide *;
    Lower(q, b, Parent(q.db, b).value, beyondRoot, rootNumber);
  }

  lemma Lower(q: Query, b: Block, p: Block, beyondRoot: bool, rootNumber: nat)
    requires Checked(q, b, beyondRoot, rootNumber) && p.number == b.number - 1
    requires Ancestor(q.db, q.start, p.number) == Some(p) && q.Visited(p.number)
    ensures Walking(q, p, beyondRoot, rootNumber)
  {
    hide Query.Visited, Ancestor;
    forall m | p.number < m && !beyondRoot ensures !q.RootAt(m) {
      assert m == b.number || b.number < m;
    }
  }

  /** The walk is at its end. */
  ghost predicate AtEnd(q: Query, n: nat) {
    q.Eligible(n) || q.PassesPivot(n) || n == 0 || Ancestor(q.db, q.start, n - 1).None?
  }

  lemma EndReports(q: Query, b: Block, beyondRoot: bool, rootNumber: nat)
    requires Checked(q, b, beyondRoot, rootNumber) && AtEnd(q, b.number)
    ensures q.Reports(rootNumber)
  {
    hide Query.Visited, Query.Eligible, Query.PassesPivot;
    forall m | q.Visited(m) && q.RootAt(m) && !beyondRoot ensures false {
      LastVisited(q, b.number, m);
    }
  }

  /** Only where the walk ends can it settle or strand. */
  lemma EndsOnce(q: Query, b: Block, n: nat)
    requires q.Visited(b.number) && AtEnd(q, b.number) && (q.Settles(n) || q.Strands(n))
    ensures n == b.number
  {
    LastVisited(q, b.number, n);
    assert q.Settles(n) && b.number < n ==> q.Eligible(n);
    if q.Strands(n) && b.number < n {
      AncestorDefined(q.db, q.start, b.number, n - 1);
    }
  }

  lemma NothingElse(q: Query, b: Block)
    requires q.Visited(b.number) && AtEnd(q, b.number)
    ensures forall n :: q.Settles(n) || q.Strands(n) ==> n == b.number
  {
    forall n | q.Settles(n) || q.Strands(n) ensures n == b.number {
      EndsOnce(q, b, n);
    }
  }

  lemma EndsAtGenesis(q: Query, b: Block, beyondRoot: bool, rootNumber: nat, genesis: Block)
    requires Checked(q, b, beyondRoot, rootNumber) && !q.hasState(b.root) && genesis.number == 0
    requires (q.pivot.None? || b.number > q.pivot.value) ==> Parent(q.db, b).None?
    ensures Correct(q, genesis, Rewound(genesis, rootNumber))
  {
    ParentIsNext(q, b);
    MetIsReached(q, b, beyondRoot, rootNumber);
    assert AtEnd(q, b.number);
    EndReports(q, b, beyondRoot, rootNumber);
    NothingElse(q, b);
    assert !q.Settles(b.number) && !q.Strands(b.number);
    hide Query.Settles, Query.Strands, Query.Reports;
  }

  lemma EndsHere(q: Query, b: Block, beyondRoot: bool, rootNumber: nat, genesis: Block)
    requires Checked(q, b, beyondRoot, rootNumber) && q.hasState(b.root) && (beyondRoot || b.number == 0)
    ensures Correct(q, genesis, Rewound(b, rootNumber))
  {
    MetIsReached(q, b, beyondRoot, rootNumber);
    assert q.Settles(b.number) && !q.Strands(b.number) && AtEnd(q, b.number);
    EndReports(q, b, beyondRoot, rootNumber);
    NothingElse(q, b);
    assert rootNumber != 0 ==> b.number <= rootNumber;
    hide Query.Settles, Query.Strands, Query.Reports;
  }

  lemma EndsStranded(q: Query, b: Block, rootNumber: nat, genesis: Block)
    requires Checked(q, b, false, rootNumber) && q.hasState(b.root) && b.number > 0 && Parent(q.db, b).None?
    ensures Correct(q, genesis, Dereferenced) && !Rooted(q.db, q.start)
  {
    ParentIsNext(q, b);
    MetIsReached(q, b, false, rootNumber);
    assert q.Strands(b.number) && !q.Settles(b.number) && AtEnd(q, b.number);
    NothingElse(q, b);
    GapIsNotRooted(q, b.number - 1);
    hide Query.Settles, Query.Strands;
  }

  lemma GapIsNotRooted(q: Query, n: nat)
    requires Ancestor(q.db, q.start, n).None? && n <= q.start.number
    ensures !Rooted(q.db, q.start)
  {
    if Rooted(q.db, q.start) {
      AncestorDefined(q.db, q.start, 0, n);
    }
  }
}
