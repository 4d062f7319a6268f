/** The indexer completes a section when the canonical chain stays put and the backend takes the blocks. */
module IndexerProgress {
  import opened Ancestry
  import opened SectionIndex
  import opened IndexerRuns
  import opened Wrappers

  lemma {:induction false} RunConcat(c: Config, s: State, a: seq<Step>, b: seq<Step>)
    requires c.size > 0 && Run(c, s, a) && Run(c, Exec(c, s, a), b)
    ensures Run(c, s, a + b) && Exec(c, s, a + b) == Exec(c, Exec(c, s, a), b)
    decreases |a|
  {
    if a == [] {
      assert a + b == b;
    } else {
      RunConcat(c, Apply(c, s, a[0]), a[1..], b);
      assert (a + b)[0] == a[0] && (a + b)[1..] == a[1..] + b;
    }
  }

  /** The canonical chain up to number n, on a first block without a parent. */
  ghost predicate FromGenesis(db: Store, canon: map<nat, Hash>, n: nat) {
    WellFormed(db) && CanonLinked(db, canon, n) && db[canon[0]].parent == NO_HASH
  }

  /** The canonical hash below number n. */
  ghost function Before(canon: map<nat, Hash>, n: nat): Hash {
    if n == 0 then NO_HASH else Get(canon, n - 1)
  }

  /** A read of a canonical block goes on to the next one. */
  lemma ReadOn(c: Config, s: State)
    requires c.size > 0 && s.updater.Processing? && s.updater.number < (s.updater.section + 1) * c.size
    requires FromGenesis(s.db, s.canon, End(c.size, s.updater.section)) && s.updater.last == Before(s.canon, s.updater.number)
    ensures AfterRead(c, s, true)
            == s.(updater := s.updater.(number := s.updater.number + 1, last := Before(s.canon, s.updater.number + 1)))
  {
    var n := s.updater.number;
    assert n in s.canon && GetBlock(s.db, s.canon[n], n).Some?;
  }

  lemma {:induction false} SectionReads(c: Config, s: State) returns (steps: seq<Step>)
    requires c.size > 0 && s.updater.Processing? && s.updater.number <= (s.updater.section + 1) * c.size
    requires FromGenesis(s.db, s.canon, End(c.size, s.updater.section)) && s.updater.last == Before(s.canon, s.updater.number)
    ensures Run(c, s, steps)
    ensures Exec(c, s, steps) == s.(updater := Done(s.updater.section, s.updater.oldHead, Some(Get(s.canon, End(c.size, s.updater.section)))))
    decreases (s.updater.section + 1) * c.size - s.updater.number
  {
    if s.updater.number == (s.updater.section + 1) * c.size {
      assert s.updater.number == End(c.size, s.updater.section) + 1;
      steps := [];
    } else {
      ReadOn(c, s);
      hide FromGenesis, AfterRead;
      steps := SectionReads(c, AfterRead(c, s, true));
    }
    if steps == [] {
      var t := AfterRead(c, s, true);
      assert Run(c, t, []) && Exec(c, t, []) == t;
    }
    Prepend(c, s, ReadBlock(true), steps);
    steps := [ReadBlock(true)] + steps;
  }

  /**
   From rest, with sections known beyond those stored and the last stored head canonical, the indexer can always
   complete the next section, and its head is the canonical hash at the section's end.
   */
  lemma SectionCompletes(c: Config, s: State) returns (steps: seq<Step>)
    requires c.size > 0 && s.job.Free? && s.updater.Idle? && s.known > s.stored
    requires FromGenesis(s.db, s.canon, End(c.size, s.stored))
    requires s.stored > 0 ==> Get(s.heads, s.stored - 1) == Get(s.canon, End(c.size, s.stored - 1))
    ensures Run(c, s, steps)
    ensures Exec(c, s, steps) == s.(stored := s.stored + 1, count := s.stored + 1,
                                    heads := s.heads[s.stored := Get(s.canon, End(c.size, s.stored))])
  {
    var section, head := s.stored, Get(s.canon, End(c.size, s.stored));
    var s1 := s.(job := Verifying(Begin));
    var s2 := BeginCanonical(c, s1);
    var blocks := SectionReads(c, s2);
    var s3 := s2.(updater := Done(section, s2.updater.oldHead, Some(head)));
    var writes := FinishWrites(c, s3);
    hide *;
    RunConcat(c, s2, blocks, writes);
    Prepend(c, s1, Verify, blocks + writes);
    Prepend(c, s, Tick, [Verify] + (blocks + writes));
    steps := [Tick] + ([Verify] + (blocks + writes));
  }

  lemma BeginCanonical(c: Config, s: State) returns (t: State)
    requires c.size > 0 && s.job == Verifying(Begin)
    requires s.stored > 0 ==> Get(s.heads, s.stored - 1) == Get(s.canon, End(c.size, s.stored - 1))
    ensures var last := Before(s.canon, s.stored * c.size);
            && t == AfterVerify(c, s) == s.(job := Free, updater := Processing(s.stored, last, s.stored * c.size, last))
            && last == Below(s.heads, s.stored)
  {
    BeginState(c, s);
    t := AfterVerify(c, s);
    if s.stored > 0 {
      assert s.stored * c.size - 1 == End(c.size, s.stored - 1);
    } else {
      assert s.stored * c.size == 0;
    }
  }

  lemma FinishWrites(c: Config, s: State) returns (steps: seq<Step>)
    requires c.size > 0 && s.job.Free? && s.updater.Done? && s.updater.result.Some? && s.updater.section == s.stored
    requires s.updater.oldHead == Below(s.heads, s.stored)
    ensures Run(c, s, steps)
    ensures Exec(c, s, steps) == s.(stored := s.stored + 1, count := s.stored + 1, updater := Idle,
                                    heads := s.heads[s.stored := s.updater.result.value])
  {
    var t := AfterFinish(s);
    assert t.job == PutCount(s.stored + 1, Free);
    steps := Settles(c, t);
    assert Truncated(t.heads, s.stored + 1, s.stored) == t.heads;
    Prepend(c, s, Finish, steps);
    steps := [Finish] + steps;
  }

  /**
   A verification that nothing interferes with ends: it drops stale sections from the end, one after the other, until
   the last one is canonical or covered by the checkpoint.
   */
  lemma {:induction false} VerificationEnds(c: Config, s: State) returns (steps: seq<Step>, kept: nat)
    requires c.size > 0 && s.job.Verifying? && !s.updater.Clearing? && s.count == s.stored
    ensures Run(c, s, steps) && kept <= s.stored && (s.checkpoint <= s.stored ==> s.checkpoint <= kept)
    ensures Exec(c, s, steps) == s.(stored := kept, count := kept, heads := Truncated(s.heads, kept, s.stored))
    ensures forall i :: kept <= i < s.stored ==> Get(s.heads, i) != Get(s.canon, End(c.size, i))
    ensures kept > s.checkpoint ==> Get(s.heads, kept - 1) == Get(s.canon, End(c.size, kept - 1))
    decreases s.stored
  {
    if !Mismatch(c, s) {
      steps, kept := [], s.stored;
      assert Truncated(s.heads, kept, s.stored) == s.heads;
    } else {
      var n := s.stored - 1;
      var s1 := AfterVerify(c, s);
      var cut := s.(stored := n, count := n, heads := Truncated(s.heads, n, s.stored));
      assert s1.job == PutCount(n, s.job) && Settled(s1) == cut;
      hide Run, Exec, Settled, AfterVerify, Truncated;
      var writes := Settles(c, s1);
      steps, kept := VerificationEnds(c, cut);
      Dropped(s.heads, kept, n);
      RunConcat(c, s1, writes, steps);
      Prepend(c, s, Verify, writes + steps);
      steps := [Verify] + (writes + steps);
    }
  }

  /** Sections below the cut are not touched by it. */
  lemma Dropped(heads: map<nat, Hash>, kept: nat, n: nat)
    requires kept <= n
    ensures Truncated(Truncated(heads, n, n + 1), kept, n) == Truncated(heads, kept, n + 1)
    ensures forall i :: 0 <= i < n ==> Get(Truncated(heads, n, n + 1), i) == Get(heads, i)
  {
  }
}
