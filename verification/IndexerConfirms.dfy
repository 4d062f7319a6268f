/** How deep a block lies below the announced heads when the indexer begins its section. */
module IndexerConfirms {
  import opened Ancestry
  import opened SectionIndex
  import opened IndexerRuns
  import opened Wrappers

  // -------------------------------------------------------------------------
  // One announcement
  // -------------------------------------------------------------------------

  /** In x blocks there are n whole sections and no more. */
  predicate Whole(size: nat, x: nat, n: nat) {
    n * size <= x < (n + 1) * size
  }

  lemma WholeDivides(size: nat, x: nat, n: nat)
    requires size > 0
    ensures Whole(size, x, n) <==> n == x / size
  {
    var m := x / size;
    assert m * size <= x < m * size + size;
    if Whole(size, x, n) {
      WholeOnce(size, x, n, m);
    }
  }

  lemma WholeOnce(size: nat, x: nat, n: nat, m: nat)
    requires Whole(size, x, n) && Whole(size, x, m)
    ensures n == m
  {
    if n < m {
      MoreSections(size, n, m);
    } else if m < n {
      MoreSections(size, m, n);
    }
  }

  lemma MoreSections(size: nat, n: nat, m: nat)
    requires n < m
    ensures (n + 1) * size <= m * size
  {
    assert m * size == (n + 1) * size + (m - n - 1) * size;
  }

  function Min(a: nat, b: nat): nat {
    if a < b then a else b
  }

  /**
   What a new head may do to the known sections. They grow only to a count that the head confirms, the largest
   one and not below the checkpoint, and only past a checkpoint that is met; they stay only when they must.
   */
  ghost predicate RaisedTo(c: Config, known: nat, checkpoint: nat, meets: bool, head: nat, known': nat) {
    && known' >= known
    && (known' > known ==>
          && known' * c.size + c.confirms <= head + 1 < (known' + 1) * c.size + c.confirms
          && known' >= checkpoint && (known < checkpoint ==> meets))
    && (known' == known ==>
          || head + 1 < (known + 1) * c.size + c.confirms
          || head + 1 < checkpoint * c.size + c.confirms
          || (known < checkpoint && !meets))
  }

  /** What a reorganisation down to head does to the known and the stored sections. */
  ghost predicate LoweredTo(c: Config, known: nat, stored: nat, checkpoint: nat, head: nat, known': nat, stored': nat) {
    && known' * c.size <= head + 1
    && forall n: nat :: Whole(c.size, head + 1, n) ==>
         && known' == Min(known, if n < checkpoint then 0 else n)
         && stored' == Min(stored, Max(n, checkpoint))
  }

  /** The canonical chain passes through the checkpoint. */
  ghost predicate Meets(c: Config, s: State)
    requires c.size > 0
  {
    s.checkpoint > 0 ==> Get(s.canon, End(c.size, s.checkpoint - 1)) == s.checkpointHead
  }

  lemma NewHeadRaises(c: Config, s: State, head: nat)
    requires c.size > 0
    ensures var t := AfterNewHead(c, s, head);
            t == s.(known := t.known) && RaisedTo(c, s.known, s.checkpoint, Meets(c, s), head, t.known)
  {
    hide AfterNewHead, Get, End;
    if head + 1 < c.confirms {
      EarlyHead(c, s, head);
    } else {
      var n := (head + 1 - c.confirms) / c.size;
      WholeDivides(c.size, head + 1 - c.confirms, n);
      NewHeadEffect(c, s, head, n);
      hide Meets;
      if n <= s.known {
        MoreSections(c.size, n, s.known + 1);
      } else if n < s.checkpoint {
        MoreSections(c.size, n, s.checkpoint);
      }
    }
  }

  lemma ReorgLowers(c: Config, s: State, head: nat)
    requires c.size > 0 && s.job.Free? && s.count == s.stored
    ensures var t := Settled(AfterReorg(c, s, head));
            && t == s.(known := t.known, stored := t.stored, count := t.stored, heads := Truncated(s.heads, t.stored, s.stored))
            && LoweredTo(c, s.known, s.stored, s.checkpoint, head, t.known, t.stored)
  {
    hide AfterReorg, Settled, Truncated;
    var m := (head + 1) / c.size;
    WholeDivides(c.size, head + 1, m);
    ReorgEffect(c, s, head, m);
    var blocks := head + 1;
    forall n: nat | Whole(c.size, blocks, n) ensures n == m {
      WholeOnce(c.size, blocks, n, m);
    }
  }

  /** A new head makes known exactly the sections it confirms, unless they end below the checkpoint or that is not met. */
  lemma NewHeadEffect(c: Config, s: State, head: nat, n: nat)
    requires c.size > 0 && c.confirms <= head + 1 && Whole(c.size, head + 1 - c.confirms, n)
    ensures var meets := s.known >= s.checkpoint || Get(s.canon, End(c.size, s.checkpoint - 1)) == s.checkpointHead;
            AfterNewHead(c, s, head) == s.(known := if n > s.known && n >= s.checkpoint && meets then n else s.known)
  {
    WholeDivides(c.size, head + 1 - c.confirms, n);
    if head < c.confirms {
      WholeDivides(c.size, 0, 0);
    }
  }

  /** A head with too few blocks below it makes nothing known. */
  lemma EarlyHead(c: Config, s: State, head: nat)
    requires c.size > 0 && head + 1 < c.confirms
    ensures AfterNewHead(c, s, head) == s
  {
  }

  /** A reorganisation leaves known and stored only what ends at or below the last block it kept, or the checkpoint. */
  lemma ReorgEffect(c: Config, s: State, head: nat, n: nat)
    requires c.size > 0 && Whole(c.size, head + 1, n) && s.job.Free? && s.count == s.stored
    ensures var t := Settled(AfterReorg(c, s, head));
            && t.known == Min(s.known, if n < s.checkpoint then 0 else n)
            && t.stored == t.count == Min(s.stored, Max(n, s.checkpoint))
            && t.heads == Truncated(s.heads, t.stored, s.stored)
            && t == s.(known := t.known, stored := t.stored, count := t.count, heads := t.heads)
            && t.known * c.size <= head + 1
  {
    WholeDivides(c.size, head + 1, n);
    KnownFits(c.size, Min(s.known, if n < s.checkpoint then 0 else n), n, head + 1);
    assert Truncated(s.heads, s.stored, s.stored) == s.heads;
  }

  lemma KnownFits(size: nat, m: nat, n: nat, x: nat)
    requires m <= n && n * size <= x
    ensures m * size <= x
  {
    assert n * size == m * size + (n - m) * size;
  }

  // -------------------------------------------------------------------------
  // Whole runs
  // -------------------------------------------------------------------------

  /** The head announced at j confirms n sections, and no reorganisation since went below their last block. */
  ghost predicate Confirmed(c: Config, n: nat, past: seq<Step>, j: nat) {
    && j < |past| && past[j].NewHead? && n * c.size + c.confirms <= past[j].head + 1
    && forall k :: j < k < |past| && past[k].Reorg? ==> n * c.size <= past[k].head + 1
  }

  /** The first n sections are confirmed, or covered by the checkpoint. */
  ghost predicate Backed(c: Config, n: nat, checkpoint: nat, past: seq<Step>) {
    n <= checkpoint || exists j :: Confirmed(c, n, past, j)
  }

  ghost predicate Waits(job: Job, next: Next) {
    job == Verifying(next) || (!Resting(job) && job.resume == Verifying(next))
  }

  /** The section count as it will be when a pending rewrite is through. */
  function Coming(s: State): nat {
    if s.job.Free? || s.job.Verifying? then s.stored else s.job.target
  }

  ghost predicate Busy(s: State) {
    !s.updater.Idle? || Waits(s.job, GiveUp)
  }

  /** The updater works behind what is known or covered. */
  ghost predicate Paced(s: State) {
    && (!Resting(s.job) ==> Resting(s.job.resume))
    && (Busy(s) ==> Coming(s) <= Max(s.known, s.checkpoint))
    && (Waits(s.job, Begin) ==> Coming(s) < s.known)
  }

  /** And nothing is known that was not confirmed. */
  ghost predicate Justified(c: Config, s: State, past: seq<Step>) {
    c.size > 0 && Paced(s) && Backed(c, s.known, s.checkpoint, past)
  }

  lemma BackedLess(c: Config, n: nat, m: nat, checkpoint: nat, past: seq<Step>)
    requires Backed(c, n, checkpoint, past) && (m <= n || m <= checkpoint)
    ensures Backed(c, m, checkpoint, past)
  {
    if checkpoint < m {
      var j :| Confirmed(c, n, past, j);
      assert n * c.size == m * c.size + (n - m) * c.size;
      assert Confirmed(c, m, past, j);
    }
  }

  lemma BackedNext(c: Config, n: nat, checkpoint: nat, past: seq<Step>, step: Step)
    requires Backed(c, n, checkpoint, past)
    requires step.Reorg? ==> n <= checkpoint || n * c.size <= step.head + 1
    ensures Backed(c, n, checkpoint, past + [step])
  {
    if checkpoint < n {
      var j :| Confirmed(c, n, past, j);
      assert Confirmed(c, n, past + [step], j);
    }
  }

  lemma BackedNow(c: Config, n: nat, checkpoint: nat, past: seq<Step>, head: nat)
    requires n * c.size + c.confirms <= head + 1
    ensures Backed(c, n, checkpoint, past + [NewHead(head)])
  {
    assert Confirmed(c, n, past + [NewHead(head)], |past|);
  }

  /** Steps that neither announce nor take back blocks keep what is known, or lower it to the stored sections. */
  lemma QuietStep(c: Config, s: State, past: seq<Step>, step: Step)
    requires Justified(c, s, past) && Enabled(c, s, step) && !step.NewHead? && !step.Reorg?
    ensures Justified(c, Apply(c, s, step), past + [step])
  {
    var t := Apply(c, s, step);
    QuietPace(c, s, step);
    hide Backed, Paced, Apply;
    BackedLess(c, s.known, t.known, s.checkpoint, past);
    BackedNext(c, t.known, s.checkpoint, past, step);
    BackedUnder(c, t.known, s.checkpoint, t.checkpoint, past + [step]);
  }

  lemma QuietPace(c: Config, s: State, step: Step)
    requires c.size > 0 && Paced(s) && Enabled(c, s, step) && !step.NewHead? && !step.Reorg?
    ensures var t := Apply(c, s, step);
            && Paced(t) && s.checkpoint <= t.checkpoint
            && (t.known == s.known || t.known <= Max(s.known, s.checkpoint))
  {
    match step
    case Verify => VerifyPace(c, s);
    case Finish => FinishPace(s);
    case AddCheckpoint(section, head) => CheckpointPace(s, section, head);
    case ReadBlock(accepted) => ReadPace(c, s, accepted);
    case Clear => ClearPace(s);
    case _ =>
  }

  lemma ClearPace(s: State)
    requires Paced(s) && s.updater.Clearing?
    ensures Paced(AfterClear(s)) && AfterClear(s).checkpoint == s.checkpoint && AfterClear(s).known == s.known
  {
  }

  lemma VerifyPace(c: Config, s: State)
    requires Paced(s) && s.job.Verifying?
    ensures var t := AfterVerify(c, s);
            && Paced(t) && s.checkpoint == t.checkpoint
            && (t.known == s.known || t.known <= Max(s.known, s.checkpoint))
  {
  }

  lemma FinishPace(s: State)
    requires Paced(s) && s.job.Free? && s.updater.Done?
    ensures Paced(AfterFinish(s)) && AfterFinish(s).checkpoint == s.checkpoint && AfterFinish(s).known == s.known
  {
  }

  lemma CheckpointPace(s: State, section: nat, head: Hash)
    requires Paced(s) && s.job.Free?
    ensures var t := AfterCheckpoint(s, section, head); Paced(t) && s.checkpoint <= t.checkpoint && t.known == s.known
  {
  }

  lemma ReadPace(c: Config, s: State, accepted: bool)
    requires Paced(s) && s.updater.Processing?
    ensures var t := AfterRead(c, s, accepted); Paced(t) && s.checkpoint == t.checkpoint && t.known == s.known
  {
  }

  lemma BackedUnder(c: Config, n: nat, checkpoint: nat, checkpoint': nat, past: seq<Step>)
    requires Backed(c, n, checkpoint, past) && checkpoint <= checkpoint'
    ensures Backed(c, n, checkpoint', past)
  {
  }

  lemma AnnouncedStep(c: Config, s: State, past: seq<Step>, head: nat)
    requires Justified(c, s, past) && s.job.Free?
    ensures Justified(c, AfterNewHead(c, s, head), past + [NewHead(head)])
  {
    if c.confirms <= head + 1 {
      var n := (head + 1 - c.confirms) / c.size;
      WholeDivides(c.size, head + 1 - c.confirms, n);
      NewHeadEffect(c, s, head, n);
      BackedNow(c, n, s.checkpoint, past, head);
    } else {
      EarlyHead(c, s, head);
    }
    BackedNext(c, s.known, s.checkpoint, past, NewHead(head));
    hide Backed, AfterNewHead;
  }

  lemma ReorgStep(c: Config, s: State, past: seq<Step>, head: nat)
    requires Justified(c, s, past) && s.job.Free?
    ensures Justified(c, AfterReorg(c, s, head), past + [Reorg(head)])
  {
    var n := (head + 1) / c.size;
    var t := AfterReorg(c, s, head);
    WholeDivides(c.size, head + 1, n);
    KnownFits(c.size, t.known, n, head + 1);
    assert t.known <= s.known && t.checkpoint == s.checkpoint;
    assert Busy(t) ==> Coming(t) <= Max(t.known, t.checkpoint);
    hide Backed, AfterReorg;
    BackedLess(c, s.known, t.known, s.checkpoint, past);
    BackedNext(c, t.known, s.checkpoint, past, Reorg(head));
  }

  lemma {:induction false} JustifiedRun(c: Config, s: State, past: seq<Step>, steps: seq<Step>)
    requires Justified(c, s, past) && Run(c, s, steps)
    ensures Justified(c, Exec(c, s, steps), past + steps)
    decreases |steps|
  {
    if steps == [] {
      assert past + steps == past;
    } else {
      var step := steps[0];
      assert Justified(c, Apply(c, s, step), past + [step]) by {
        hide Justified, Run, Exec;
        if step.NewHead? {
          AnnouncedStep(c, s, past, step.head);
        } else if step.Reorg? {
          ReorgStep(c, s, past, step.head);
        } else {
          QuietStep(c, s, past, step);
        }
      }
      hide Justified;
      JustifiedRun(c, Apply(c, s, step), past + [step], steps[1..]);
      assert past + [step] + steps[1..] == past + steps;
    }
  }

  /** A run from a start at whose end the updater takes up its next section, which is the one after the stored ones. */
  ghost predicate Begins(c: Config, s: State, steps: seq<Step>) {
    && Init(c, s) && Run(c, s, steps)
    && var t := Exec(c, s, steps); t.job == Verifying(Begin) && !Mismatch(c, t)
  }

  ghost function Begun(c: Config, s: State, steps: seq<Step>): nat
    requires Begins(c, s, steps)
  {
    Exec(c, s, steps).stored
  }

  /**
   When a section is begun, its last block lies as deep as required below a head announced before, and no
   reorganisation since that announcement went below it; or the section is covered by the checkpoint.
   */
  lemma BegunIsConfirmed(c: Config, s: State, steps: seq<Step>)
    requires Begins(c, s, steps)
    ensures var t, section := Exec(c, s, steps), Begun(c, s, steps);
            && AfterVerify(c, t).updater.Processing? && AfterVerify(c, t).updater.section == section
            && (|| section < t.checkpoint
                || exists j :: && 0 <= j < |steps| && steps[j].NewHead? && End(c.size, section) + c.confirms <= steps[j].head
                               && forall k :: j < k < |steps| && steps[k].Reorg? ==> End(c.size, section) <= steps[k].head)
  {
    assert Backed(c, 0, s.checkpoint, []);
    JustifiedRun(c, s, [], steps);
    assert [] + steps == steps;
    var t := Exec(c, s, steps);
    BeginState(c, t);
    hide *;
    if t.checkpoint <= t.stored {
      BackedLess(c, t.known, t.stored + 1, t.checkpoint, steps);
      var j := Depth(c, t.stored, t.checkpoint, steps);
    }
  }

  lemma Depth(c: Config, section: nat, checkpoint: nat, past: seq<Step>) returns (j: nat)
    requires Backed(c, section + 1, checkpoint, past) && checkpoint <= section
    ensures j < |past| && past[j].NewHead? && End(c.size, section) + c.confirms <= past[j].head
    ensures forall k :: j < k < |past| && past[k].Reorg? ==> End(c.size, section) <= past[k].head
  {
    j :| Confirmed(c, section + 1, past, j);
  }

  // -------------------------------------------------------------------------
  // Since the last reorganisation
  // -------------------------------------------------------------------------

  ghost predicate SettledSince(past: seq<Step>, j: nat) {
    forall k :: j < k < |past| ==> !past[k].Reorg?
  }

  /** The section's last block lies deep enough below a head named by the last reorganisation or since. */
  ghost predicate Fresh(c: Config, section: nat, past: seq<Step>) {
    exists j :: && 0 <= j < |past| && (past[j].NewHead? || past[j].Reorg?) && SettledSince(past, j)
                && End(c.size, section) + c.confirms <= past[j].head
  }

  ghost predicate AlwaysFresh(c: Config) {
    forall s, steps :: Begins(c, s, steps) && Begun(c, s, steps) >= Exec(c, s, steps).checkpoint ==>
      Fresh(c, Begun(c, s, steps), steps)
  }

  /** The last reorganisation after j, if there is any. */
  lemma {:induction false} LastReorg(past: seq<Step>, j: nat, n: nat) returns (r: nat)
    requires j < n <= |past| && forall k :: n <= k < |past| ==> !past[k].Reorg?
    ensures j <= r < |past| && SettledSince(past, r) && (r > j ==> past[r].Reorg?)
    decreases n
  {
    if n == j + 1 || past[n - 1].Reorg? {
      r := n - 1;
    } else {
      r := LastReorg(past, j, n - 1);
    }
  }

  lemma FreshWithoutConfirms(c: Config, s: State, steps: seq<Step>)
    requires c.confirms == 0 && Begins(c, s, steps) && Begun(c, s, steps) >= Exec(c, s, steps).checkpoint
    ensures Fresh(c, Begun(c, s, steps), steps)
  {
    BegunIsConfirmed(c, s, steps);
    var section := Begun(c, s, steps);
    hide *;
    var j :| && 0 <= j < |steps| && steps[j].NewHead? && End(c.size, section) + c.confirms <= steps[j].head
             && forall k :: j < k < |steps| && steps[k].Reorg? ==> End(c.size, section) <= steps[k].head;
    var r := LastReorg(steps, j, |steps|);
    FreshAt(c, section, steps, r);
  }

  lemma FreshAt(c: Config, section: nat, past: seq<Step>, j: nat)
    requires j < |past| && (past[j].NewHead? || past[j].Reorg?) && SettledSince(past, j)
    requires End(c.size, section) + c.confirms <= past[j].head
    ensures Fresh(c, section, past)
  {
  }

  /** For every configuration that asks for confirmations: a reorganisation back to the end of a section leaves it known. */
  lemma StaleBegin(c: Config) returns (s: State, steps: seq<Step>)
    requires c.size > 0 && c.confirms > 0
    ensures Begins(c, s, steps) && Begun(c, s, steps) == 0 == Exec(c, s, steps).checkpoint && !Fresh(c, 0, steps)
  {
    s := State(map[], map[], map[], 0, 0, 0, 0, NO_HASH, Free, Idle);
    var head, last := c.size - 1 + c.confirms, c.size - 1;
    var known := s.(known := 1);
    WholeDivides(c.size, c.size, 1);
    NewHeadEffect(c, s, head, 1);
    assert AfterReorg(c, known, last) == known;
    var t := known.(job := Verifying(Begin));
    assert Run(c, t, []) && Exec(c, t, []) == t;
    Prepend(c, known, Tick, []);
    Prepend(c, known, Reorg(last), [Tick]);
    Prepend(c, s, NewHead(head), [Reorg(last), Tick]);
    steps := [NewHead(head), Reorg(last), Tick];
    assert steps == [NewHead(head)] + [Reorg(last), Tick] && [Reorg(last), Tick] == [Reorg(last)] + [Tick];
    assert [Tick] == [Tick] + [];
    assert steps[1].Reorg?;
    assert !Fresh(c, 0, steps);
  }

  /**
   That a head named since the last reorganisation confirms every section begun is true of a configuration
   exactly when it asks for no confirmations: a reorganisation does not take the required depth off again.
   */
  lemma FreshExactly(c: Config)
    requires c.size > 0
    ensures AlwaysFresh(c) <==> c.confirms == 0
  {
    if c.confirms == 0 {
      forall s, steps | Begins(c, s, steps) && Begun(c, s, steps) >= Exec(c, s, steps).checkpoint
        ensures Fresh(c, Begun(c, s, steps), steps)
      {
        FreshWithoutConfirms(c, s, steps);
      }
    } else {
      var s, steps := StaleBegin(c);
      assert Begins(c, s, steps) && Begun(c, s, steps) >= Exec(c, s, steps).checkpoint;
    }
  }

  /** With confirmations it holds as soon as the chain has grown by that many blocks past the last reorganisation. */
  lemma FreshAfterGrowth(c: Config, s: State, steps: seq<Step>, r: nat, j: nat)
    requires Begins(c, s, steps) && Begun(c, s, steps) >= Exec(c, s, steps).checkpoint
    requires r < j < |steps| && steps[r].Reorg? && SettledSince(steps, r)
    requires steps[j].NewHead? && steps[j].head >= steps[r].head + c.confirms
    ensures Fresh(c, Begun(c, s, steps), steps)
  {
    BegunIsConfirmed(c, s, steps);
    var section := Begun(c, s, steps);
    hide Begins, Run, Exec, Begun, AfterVerify;
    var i :| && 0 <= i < |steps| && steps[i].NewHead? && End(c.size, section) + c.confirms <= steps[i].head
             && forall k :: i < k < |steps| && steps[k].Reorg? ==> End(c.size, section) <= steps[k].head;
    FreshAt(c, section, steps, if i > r then i else j);
  }
}
