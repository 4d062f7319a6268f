/** The section indexer's operations. Each one runs under the lock; the state machine says how they interleave. */
module ChainIndexer {
  import opened Ancestry
  import opened SectionIndex
  import opened IndexerRuns
  import opened IndexerConfirms
  import opened Wrappers

  class ChainIndexer {
    const config: Config
    var heads: map<nat, Hash>
    var count: nat
    var stored: nat
    var known: nat
    var checkpoint: nat
    var checkpointHead: Hash
    /** Where the update loop is while others hold the lock. */
    ghost var updater: Updater

    ghost function Now(db: Store, canon: map<nat, Hash>): State
      reads this
    {
      State(db, canon, heads, count, stored, known, checkpoint, checkpointHead, Free, updater)
    }

    /** Between operations the state machine's invariant holds, whatever the canonical index says. */
    ghost predicate Valid(db: Store)
      reads this
    {
      Inv(config, Now(db, map[])) && !updater.Clearing?
    }

    lemma ValidNow(db: Store, canon: map<nat, Hash>)
      requires Valid(db)
      ensures Inv(config, Now(db, canon))
    {
      ChainMovesInv(config, Now(db, map[]), db, canon);
    }

    lemma StillValid(db: Store, canon: map<nat, Hash>)
      requires Inv(config, Now(db, canon)) && !updater.Clearing?
      ensures Valid(db)
    {
      ChainMovesInv(config, Now(db, canon), db, map[]);
    }

    lemma NowIs(db: Store, canon: map<nat, Hash>)
      ensures Now(db, canon) == State(db, canon, heads, count, stored, known, checkpoint, checkpointHead, Free, updater)
    {
    }

    /** Starts from what the index database holds. */
    constructor (config: Config, count: nat, heads: map<nat, Hash>, ghost db: Store)
      requires config.size > 0 && Sound(db) && Chained(db, config.size, heads, 0, count)
      ensures Valid(db) && this.config == config && stored == count && this.heads == heads && updater.Idle?
    {
      this.config := config;
      this.heads := heads;
      this.count := count;
      stored := count;
      known := 0;
      checkpoint := 0;
      checkpointHead := NO_HASH;
      updater := Idle;
      new;
      InitInv(config, Now(db, map[]));
    }

    method SetValidSections(sections: nat)
      modifies `heads, `count, `stored
      ensures count == stored == sections && heads == Truncated(old(heads), sections, old(stored))
    {
      count := sections;
      while stored > sections
        invariant count == sections
        invariant stored <= old(stored) && (stored < sections ==> stored == old(stored))
        invariant heads == Truncated(old(heads), stored, old(stored))
      {
        stored := stored - 1;
        heads := heads - {stored};
      }
      stored := sections;
    }

    /** Drops sections from the end until the last one is canonical or covered by the checkpoint. */
    method VerifyLastHead(ghost db: Store, canon: map<nat, Hash>)
      requires Valid(db)
      modifies `heads, `count, `stored
      ensures Valid(db) && count == stored <= old(stored) && heads == Truncated(old(heads), stored, old(stored))
      ensures OnlyStaleDropped(config.size, old(heads), canon, checkpoint, stored, old(stored))
      ensures CanonLinked(db, canon, config.size * old(stored) - 1) ==>
                KeptExactly(config.size, old(heads), canon, checkpoint, stored, old(stored))
    {
      hide *;
      ValidNow(db, canon);
      Parts(db);
      TruncatedNone(heads, stored);
      StaleNone(config.size, heads, canon, stored);
      while stored > 0 && stored > checkpoint
        invariant Inv(config, Now(db, canon)) && !updater.Clearing? && config.size > 0
        invariant count == stored <= old(stored) && heads == Truncated(old(heads), stored, old(stored))
        invariant old(stored) >= checkpoint ==> stored >= checkpoint
        invariant AllStale(config.size, old(heads), canon, stored, old(stored))
      {
        TruncatedGet(old(heads), stored, old(stored), stored - 1);
        if Get(heads, stored - 1) == Get(canon, End(config.size, stored - 1)) {
          break;
        }
        NowIs(db, canon);
        CutSection(Now(db, canon));
        TruncatedAgain(old(heads), stored, old(stored));
        StaleStep(config.size, old(heads), canon, stored, old(stored));
        SetValidSections(stored - 1);
        NowIs(db, canon);
      }
      StillValid(db, canon);
      if stored > checkpoint {
        TruncatedGet(old(heads), stored, old(stored), stored - 1);
      }
      DroppedStale(config.size, old(heads), canon, checkpoint, stored, old(stored));
      if CanonLinked(db, canon, config.size * old(stored) - 1) {
        Parts(db);
        KeepsCanonical(db, config.size, canon, heads, old(heads), checkpoint, stored, old(stored));
      }
    }

    lemma Parts(db: Store)
      requires Valid(db)
      ensures config.size > 0 && !updater.Clearing? && count == stored
      ensures Chained(db, config.size, heads, checkpoint, stored)
    {
    }

    lemma CutSection(s: State)
      requires Inv(config, s) && s.job.Free? && !s.updater.Clearing? && s.stored > s.checkpoint
      ensures Inv(config, s.(count := s.stored - 1, stored := s.stored - 1, heads := Truncated(s.heads, s.stored - 1, s.stored)))
    {
      CutInv(config, s, s.stored - 1);
      var s1 := s.(job := PutCount(s.stored - 1, Free));
      assert Inv(config, s1) by {
        hide Chained, Spans;
      }
      SettledInv(config, s1);
    }

    /**
     A new chain head, or the last block kept by a reorganisation. A new head raises the known sections to those
     it confirms, unless they end below the checkpoint or the checkpoint is not met; it changes nothing else.
     A reorganisation lowers known and stored to the sections that end at or below its block.
     */
    method NewHead(head: nat, reorg: bool, ghost db: Store, canon: map<nat, Hash>)
      requires Valid(db)
      modifies `heads, `count, `stored, `known
      ensures Valid(db)
      ensures Now(db, canon) == if reorg then Settled(AfterReorg(config, old(Now(db, canon)), head))
                                else AfterNewHead(config, old(Now(db, canon)), head)
      ensures !reorg ==> heads == old(heads) && count == old(count) && stored == old(stored)
      ensures !reorg ==> RaisedTo(config, old(known), checkpoint, Meets(config, Now(db, canon)), head, known)
      ensures reorg ==> LoweredTo(config, old(known), old(stored), checkpoint, head, known, stored)
      ensures reorg ==> count == stored && heads == Truncated(old(heads), stored, old(stored))
    {
      Parts(db);
      ValidNow(db, canon);
      hide Inv, Valid, Truncated, RaisedTo, LoweredTo, AfterReorg, AfterNewHead, Settled;
      ghost var s := Now(db, canon);
      if reorg {
        ReorgInv(config, s, head);
        SettledInv(config, AfterReorg(config, s, head));
        Revert(head, db, canon);
        ReorgLowers(config, s, head);
      } else {
        KnownInv(config, s, AfterNewHead(config, s, head).known);
        NewHeadRaises(config, s, head);
        Announce(head, db, canon);
      }
      StillValid(db, canon);
    }

    method Revert(head: nat, ghost db: Store, ghost canon: map<nat, Hash>)
      requires config.size > 0
      modifies `heads, `count, `stored, `known
      ensures Now(db, canon) == Settled(AfterReorg(config, old(Now(db, canon)), head))
    {
      var sections := (head + 1) / config.size;
      var newKnown, newStored := sections, sections;
      if newKnown < checkpoint {
        newKnown := 0;
      }
      if newStored < checkpoint {
        newStored := checkpoint;
      }
      if newKnown < known {
        known := newKnown;
      }
      if newStored < stored {
        SetValidSections(newStored);
      }
    }

    method Announce(head: nat, ghost db: Store, canon: map<nat, Hash>)
      requires config.size > 0
      modifies `known
      ensures Now(db, canon) == AfterNewHead(config, old(Now(db, canon)), head)
    {
      if head >= config.confirms {
        var sections := (head + 1 - config.confirms) / config.size;
        if sections < checkpoint {
          sections := 0;
        }
        if sections > known {
          if known < checkpoint && Get(canon, End(config.size, checkpoint - 1)) != checkpointHead {
            return;
          }
          known := sections;
        }
      }
    }

    method AddCheckpoint(section: nat, head: Hash, ghost db: Store)
      requires Valid(db)
      modifies `heads, `count, `stored, `checkpoint, `checkpointHead
      ensures Valid(db)
      ensures Now(db, map[]) == Settled(AfterCheckpoint(old(Now(db, map[])), section, head))
      ensures old(checkpoint) > section || old(stored) > section ==> unchanged(this)
      ensures old(checkpoint) <= section && old(stored) <= section ==>
                && checkpoint == section + 1 && checkpointHead == head && stored == count == section + 1
                && heads == old(heads)[section := head]
    {
      hide Inv, Valid;
      Parts(db);
      ValidNow(db, map[]);
      CheckpointInv(config, Now(db, map[]), section, head);
      SettledInv(config, AfterCheckpoint(Now(db, map[]), section, head));
      if checkpoint >= section + 1 || section < stored {
        return;
      }
      checkpoint := section + 1;
      checkpointHead := head;
      heads := heads[section := head];
      assert Truncated(heads, section + 1, stored) == heads;
      SetValidSections(section + 1);
      StillValid(db, map[]);
    }

    /** The number of valid sections, the last block they cover and its hash; 64-bit arithmetic wraps for none. */
    method Sections(ghost db: Store, canon: map<nat, Hash>) returns (sections: nat, number: nat, head: Hash)
      requires Valid(db)
      modifies `heads, `count, `stored
      ensures Valid(db) && sections == count == stored <= old(stored) && heads == Truncated(old(heads), stored, old(stored))
      ensures OnlyStaleDropped(config.size, old(heads), canon, checkpoint, stored, old(stored))
      ensures stored == 0 ==> number == 0xFFFF_FFFF_FFFF_FFFF && head == NO_HASH
      ensures stored > 0 && End(config.size, stored - 1) < 0x1_0000_0000_0000_0000 ==>
                number == End(config.size, stored - 1) && head == Get(heads, stored - 1)
      ensures stored > checkpoint && End(config.size, stored - 1) < 0x1_0000_0000_0000_0000 ==> head == Get(canon, number)
    {
      VerifyLastHead(db, canon);
      Parts(db);
      hide Valid;
      sections := stored;
      number := (stored * config.size - 1) % 0x1_0000_0000_0000_0000;
      head := if stored == 0 then NO_HASH else Get(heads, stored - 1);
    }

    /** The update loop takes up the next section and lets go of the lock. */
    method BeginSection(ghost db: Store, canon: map<nat, Hash>) returns (section: nat, oldHead: Hash)
      requires Valid(db) && updater.Idle?
      modifies `heads, `count, `stored, `updater
      ensures Valid(db) && section == count == stored <= old(stored) && oldHead == Below(heads, stored)
      ensures heads == Truncated(old(heads), stored, old(stored))
      ensures OnlyStaleDropped(config.size, old(heads), canon, checkpoint, stored, old(stored))
      ensures updater == Processing(section, oldHead, section * config.size, oldHead)
      ensures stored > checkpoint ==> oldHead == Get(canon, End(config.size, stored - 1))
    {
      VerifyLastHead(db, canon);
      section := stored;
      oldHead := NO_HASH;
      if section > 0 {
        oldHead := Get(heads, section - 1);
      }
      updater := Processing(section, oldHead, section * config.size, oldHead);
    }

    /**
     The update loop reports the outcome. A section is only added on top of the head it was processed from;
     otherwise the end of the index is verified again and nothing more is known.
     */
    method FinishSection(section: nat, oldHead: Hash, result: Option<Hash>, ghost db: Store, canon: map<nat, Hash>)
      requires Valid(db) && updater == Processing(section, oldHead, section * config.size, oldHead)
      requires result.Some? ==> Spans(db, oldHead, result.value, End(config.size, section), config.size)
      modifies `heads, `count, `stored, `known, `updater
      ensures Valid(db) && updater.Idle?
      ensures if result.Some? && (section == 0 || oldHead == Get(old(heads), section - 1))
              then stored == count == section + 1 && known == old(known) &&
                   heads == Truncated(old(heads)[section := result.value], section + 1, old(stored))
              else known == count == stored <= old(stored) && heads == Truncated(old(heads), stored, old(stored)) &&
                   OnlyStaleDropped(config.size, old(heads), canon, checkpoint, stored, old(stored))
    {
      hide Inv, Valid, Spans;
      ghost var s := Now(db, canon).(updater := Done(section, oldHead, result));
      Reports(db, canon, section, oldHead, result);
      FinishInv(config, s);
      updater := Idle;
      if result.Some? && (section == 0 || oldHead == Get(heads, section - 1)) {
        SettledInv(config, AfterFinish(s));
        heads := heads[section := result.value];
        SetValidSections(section + 1);
        StillValid(db, canon);
      } else {
        FreeAgain(AfterFinish(s));
        StillValid(db, canon);
        VerifyLastHead(db, canon);
        ValidNow(db, canon);
        KnownInv(config, Now(db, canon), stored);
        known := stored;
        StillValid(db, canon);
      }
    }

    lemma Reports(db: Store, canon: map<nat, Hash>, section: nat, oldHead: Hash, result: Option<Hash>)
      requires Valid(db) && updater == Processing(section, oldHead, section * config.size, oldHead)
      requires result.Some? ==> Spans(db, oldHead, result.value, End(config.size, section), config.size)
      ensures Inv(config, Now(db, canon).(updater := Done(section, oldHead, result)))
    {
      ValidNow(db, canon);
      UpdaterMoves(config, Now(db, canon), Done(section, oldHead, result));
    }

    lemma FreeAgain(s: State)
      requires Inv(config, s) && s.job.Verifying?
      ensures Inv(config, s.(job := Free))
    {
      hide Chained, Spans;
    }
  }

  /**
   Reads a section block by block without the lock: canonAt and headerAt are what the database answers when
   each number is reached. The result, if any, lies exactly one section above the given head.
   */
  method ProcessSection(ghost db: Store, size: nat, section: nat, oldHead: Hash, canonAt: nat -> Hash,
                        headerAt: nat -> Option<Block>, accepts: nat -> bool, commits: bool) returns (result: Option<Hash>)
    requires WellFormed(db)
    requires forall n :: headerAt(n).Some? ==> GetBlock(db, canonAt(n), n) == headerAt(n)
    ensures result.Some? ==> Spans(db, oldHead, result.value, End(size, section), size)
    ensures result.Some? <==> (commits &&
              forall n :: section * size <= n < section * size + size ==>
                Continues(section * size, oldHead, canonAt, headerAt, n) && accepts(n))
  {
    var lastHead := oldHead;
    var number := section * size;
    NextSection(size, section);
    while number < (section + 1) * size
      invariant section * size <= number <= section * size + size
      invariant Spans(db, oldHead, lastHead, number - 1, number - section * size)
      invariant lastHead == if number == section * size then oldHead else canonAt(number - 1)
      invariant forall n :: section * size <= n < number ==> Continues(section * size, oldHead, canonAt, headerAt, n) && accepts(n)
    {
      if canonAt(number) == NO_HASH || headerAt(number).None? || headerAt(number).value.parent != lastHead || !accepts(number) {
        assert !(Continues(section * size, oldHead, canonAt, headerAt, number) && accepts(number));
        return None;
      }
      ReadOne(db, oldHead, lastHead, number, number - section * size, canonAt(number));
      lastHead := headerAt(number).value.hash;
      number := number + 1;
    }
    result := if commits then Some(lastHead) else None;
  }

  /** The block read at number n is there and follows the one read before it. */
  predicate Continues(first: nat, oldHead: Hash, canonAt: nat -> Hash, headerAt: nat -> Option<Block>, n: nat)
    requires first <= n
  {
    && canonAt(n) != NO_HASH && headerAt(n).Some?
    && headerAt(n).value.parent == if n == first then oldHead else canonAt(n - 1)
  }

  /** None of the sections from k to n is canonical. */
  ghost predicate AllStale(size: nat, heads: map<nat, Hash>, canon: map<nat, Hash>, k: nat, n: nat)
    requires size > 0
  {
    forall i :: k <= i < n ==> Get(heads, i) != Get(canon, End(size, i))
  }

  /** A verification dropped stale sections from the end, down to a match or the checkpoint. */
  ghost predicate OnlyStaleDropped(size: nat, heads: map<nat, Hash>, canon: map<nat, Hash>, checkpoint: nat, kept: nat, n: nat)
    requires size > 0
  {
    && AllStale(size, heads, canon, kept, n)
    && (n >= checkpoint ==> kept >= checkpoint)
    && (kept > checkpoint ==> Get(heads, kept - 1) == Get(canon, End(size, kept - 1)))
  }

  lemma DroppedStale(size: nat, heads: map<nat, Hash>, canon: map<nat, Hash>, checkpoint: nat, kept: nat, n: nat)
    requires size > 0 && AllStale(size, heads, canon, kept, n) && (n >= checkpoint ==> kept >= checkpoint)
    requires kept > checkpoint ==> Get(heads, kept - 1) == Get(canon, End(size, kept - 1))
    ensures OnlyStaleDropped(size, heads, canon, checkpoint, kept, n)
  {
  }

  /** Of the n sections, those kept above the checkpoint are exactly the canonical ones. */
  ghost predicate KeptExactly(size: nat, heads: map<nat, Hash>, canon: map<nat, Hash>, checkpoint: nat, kept: nat, n: nat)
    requires size > 0
  {
    forall i :: checkpoint <= i < n ==> (i < kept <==> Get(heads, i) == Get(canon, End(size, i)))
  }

  lemma KeepsCanonical(db: Store, size: nat, canon: map<nat, Hash>, heads: map<nat, Hash>, was: map<nat, Hash>,
                       checkpoint: nat, kept: nat, n: nat)
    requires size > 0 && Chained(db, size, heads, checkpoint, kept) && kept <= n && heads == Truncated(was, kept, n)
    requires kept > checkpoint ==> Get(heads, kept - 1) == Get(canon, End(size, kept - 1))
    requires AllStale(size, was, canon, kept, n) && CanonLinked(db, canon, size * n - 1)
    ensures KeptExactly(size, was, canon, checkpoint, kept, n)
  {
    forall i | checkpoint <= i < kept ensures Get(was, i) == Get(canon, End(size, i)) {
      hide *;
      EndGrows(size, kept, n);
      LinkedPrefix(db, canon, End(size, kept - 1), size * n - 1);
      HeadsCanonical(db, size, canon, heads, checkpoint, kept, i);
      TruncatedGet(was, kept, n, i);
      GetPresent(heads, i);
    }
  }

  lemma GetPresent(heads: map<nat, Hash>, i: nat)
    requires i in heads
    ensures Get(heads, i) == heads[i]
  {
  }

  lemma StaleStep(size: nat, heads: map<nat, Hash>, canon: map<nat, Hash>, k: nat, n: nat)
    requires size > 0 && 0 < k <= n && AllStale(size, heads, canon, k, n) && Get(heads, k - 1) != Get(canon, End(size, k - 1))
    ensures AllStale(size, heads, canon, k - 1, n)
  {
  }

  lemma StaleNone(size: nat, heads: map<nat, Hash>, canon: map<nat, Hash>, n: nat)
    requires size > 0
    ensures AllStale(size, heads, canon, n, n)
  {
  }

  lemma TruncatedGet(heads: map<nat, Hash>, target: nat, stored: nat, i: nat)
    requires i < target
    ensures Get(Truncated(heads, target, stored), i) == Get(heads, i)
  {
  }

  lemma TruncatedAgain(heads: map<nat, Hash>, k: nat, n: nat)
    requires 0 < k <= n
    ensures Truncated(Truncated(heads, k, n), k - 1, k) == Truncated(heads, k - 1, n)
  {
  }

  lemma TruncatedNone(heads: map<nat, Hash>, n: nat)
    ensures Truncated(heads, n, n) == heads
  {
  }

  lemma EndGrows(size: nat, k: nat, n: nat)
    requires 0 < k <= n
    ensures End(size, k - 1) <= size * n - 1
  {
    var d: nat := n - k;
    assert size * n == size * k + size * d;
    assert End(size, k - 1) == size * k - 1;
  }

  lemma LinkedPrefix(db: Store, canon: map<nat, Hash>, k: int, n: int)
    requires CanonLinked(db, canon, n) && k <= n
    ensures CanonLinked(db, canon, k)
  {
  }
}
