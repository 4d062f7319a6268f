/**
 The section indexer as a state machine. Every step writes at most one database entry; the lock is held for as
 long as a job is pending, and the updater works on a section while others take the lock.
 */
module IndexerRuns {
  import opened Ancestry
  import opened SectionIndex
  import opened Wrappers

  datatype Config = Config(size: nat, confirms: nat)

  /** What follows a verification of the last head. */
  datatype Next = Release | Begin | GiveUp

  /** The work that the holder of the lock still has to do. */
  datatype Job =
    | Free
    | Verifying(next: Next)
    | PutCount(target: nat, resume: Job)
    | Shrinking(target: nat, resume: Job)
    | Removing(target: nat, resume: Job)

  datatype Phase = ClearCount | ClearLoop | ClearRemove

  /** Where the update loop is while it does not hold the lock. */
  datatype Updater =
    | Idle
    | Processing(section: nat, oldHead: Hash, number: nat, last: Hash)
    | Clearing(section: nat, oldHead: Hash, phase: Phase)
    | Done(section: nat, oldHead: Hash, result: Option<Hash>)

  datatype State = State(
    db: Store,
    canon: map<nat, Hash>,
    heads: map<nat, Hash>,
    count: nat,
    stored: nat,
    known: nat,
    checkpoint: nat,
    checkpointHead: Hash,
    job: Job,
    updater: Updater)

  datatype Step =
    /** The chain adds blocks and rewrites its canonical index at will. */
    | ChainMoves(db: Store, canon: map<nat, Hash>)
    | AddCheckpoint(section: nat, head: Hash)
    | Reorg(head: nat)
    | NewHead(head: nat)
    | AskSections
    | Tick
    | Verify
    | Put
    | Shrink
    | Remove
    /** One canonical block is read and given to the backend, which may refuse it. */
    | ReadBlock(accepted: bool)
    | ResetFails
    | Clear
    | Finish

  function Max(a: nat, b: nat): nat {
    if a < b then b else a
  }

  predicate Mismatch(c: Config, s: State) {
    && s.stored > s.checkpoint && c.size > 0
    && Get(s.heads, s.stored - 1) != Get(s.canon, End(c.size, s.stored - 1))
  }

  ghost predicate Enabled(c: Config, s: State, step: Step) {
    match step
    case ChainMoves(db, canon) => Grows(s.db, db) && Sound(db)
    case AddCheckpoint(_, _) => s.job.Free?
    case Reorg(_) => s.job.Free?
    case NewHead(_) => s.job.Free?
    case AskSections => s.job.Free?
    case Tick => s.job.Free? && s.updater.Idle? && s.known > s.stored
    case Verify => s.job.Verifying?
    case Put => s.job.PutCount?
    case Shrink => s.job.Shrinking?
    case Remove => s.job.Removing?
    case ReadBlock(_) => s.updater.Processing?
    case ResetFails => s.updater.Processing? && s.updater.number == s.updater.section * c.size
    case Clear => s.updater.Clearing?
    case Finish => s.job.Free? && s.updater.Done?
  }

  function AfterCheckpoint(s: State, section: nat, head: Hash): State {
    if s.checkpoint >= section + 1 || section < s.stored then s
    else s.(checkpoint := section + 1, checkpointHead := head, heads := s.heads[section := head],
            job := PutCount(section + 1, Free))
  }

  function AfterReorg(c: Config, s: State, head: nat): State
    requires c.size > 0
  {
    var sections := (head + 1) / c.size;
    var known := if sections < s.checkpoint then 0 else sections;
    var stored := Max(sections, s.checkpoint);
    var s1 := if known < s.known then s.(known := known) else s;
    if stored < s.stored then s1.(job := PutCount(stored, Free)) else s1
  }

  function AfterNewHead(c: Config, s: State, head: nat): State
    requires c.size > 0
  {
    if head < c.confirms then s else
    var n := (head + 1 - c.confirms) / c.size;
    var sections := if n < s.checkpoint then 0 else n;
    if sections <= s.known then s
    else if s.known < s.checkpoint && Get(s.canon, End(c.size, s.checkpoint - 1)) != s.checkpointHead then s
    else s.(known := sections)
  }

  function AfterVerify(c: Config, s: State): State
    requires s.job.Verifying?
  {
    if Mismatch(c, s) then s.(job := PutCount(s.stored - 1, s.job))
    else
      match s.job.next
      case Release => s.(job := Free)
      case Begin =>
        var head := Below(s.heads, s.stored);
        s.(job := Free, updater := Processing(s.stored, head, s.stored * c.size, head))
      case GiveUp => s.(job := Free, known := s.stored)
  }

  function AfterRead(c: Config, s: State, accepted: bool): State
    requires s.updater.Processing?
  {
    var u := s.updater;
    if u.number >= (u.section + 1) * c.size then
      s.(updater := Done(u.section, u.oldHead, if accepted then Some(u.last) else None))
    else
      var hash := Get(s.canon, u.number);
      var header := GetBlock(s.db, hash, u.number);
      if hash == NO_HASH || header.None? || header.value.parent != u.last || !accepted
      then s.(updater := Done(u.section, u.oldHead, None))
      else s.(updater := u.(number := u.number + 1, last := header.value.hash))
  }

  /** Dropping all sections after a failed reset, without the lock. */
  function AfterClear(s: State): State
    requires s.updater.Clearing?
  {
    var u := s.updater;
    match u.phase
    case ClearCount => s.(count := 0, updater := u.(phase := ClearLoop))
    case ClearLoop =>
      if s.stored > 0 then s.(stored := s.stored - 1, updater := u.(phase := ClearRemove))
      else s.(stored := 0, updater := Done(u.section, u.oldHead, None))
    case ClearRemove => s.(heads := s.heads - {s.stored}, updater := u.(phase := ClearLoop))
  }

  function AfterFinish(s: State): State
    requires s.updater.Done?
  {
    var u := s.updater;
    if u.result.Some? && (u.section == 0 || u.oldHead == Get(s.heads, u.section - 1))
    then s.(heads := s.heads[u.section := u.result.value], job := PutCount(u.section + 1, Free), updater := Idle)
    else s.(job := Verifying(GiveUp), updater := Idle)
  }

  function Apply(c: Config, s: State, step: Step): State
    requires c.size > 0 && Enabled(c, s, step)
  {
    match step
    case ChainMoves(db, canon) => s.(db := db, canon := canon)
    case AddCheckpoint(section, head) => AfterCheckpoint(s, section, head)
    case Reorg(head) => AfterReorg(c, s, head)
    case NewHead(head) => AfterNewHead(c, s, head)
    case AskSections => s.(job := Verifying(Release))
    case Tick => s.(job := Verifying(Begin))
    case Verify => AfterVerify(c, s)
    case Put => s.(count := s.job.target, job := Shrinking(s.job.target, s.job.resume))
    case Shrink =>
      if s.stored > s.job.target then s.(stored := s.stored - 1, job := Removing(s.job.target, s.job.resume))
      else s.(stored := s.job.target, job := s.job.resume)
    case Remove => s.(heads := s.heads - {s.stored}, job := Shrinking(s.job.target, s.job.resume))
    case ReadBlock(accepted) => AfterRead(c, s, accepted)
    case ResetFails => s.(updater := Clearing(s.updater.section, s.updater.oldHead, ClearCount))
    case Clear => AfterClear(s)
    case Finish => AfterFinish(s)
  }

  /** The unlocked clearing does not overlap a locked rewrite of the sections. */
  ghost predicate Exclusive(s: State) {
    s.updater.Clearing? ==> s.job.Free? || s.job.Verifying?
  }

  ghost predicate Run(c: Config, s: State, steps: seq<Step>)
    requires c.size > 0
    decreases |steps|
  {
    steps != [] ==> Enabled(c, s, steps[0]) && Run(c, Apply(c, s, steps[0]), steps[1..])
  }

  ghost function Exec(c: Config, s: State, steps: seq<Step>): State
    requires c.size > 0 && Run(c, s, steps)
    decreases |steps|
  {
    if steps == [] then s else Exec(c, Apply(c, s, steps[0]), steps[1..])
  }

  ghost predicate ExclusiveRun(c: Config, s: State, steps: seq<Step>)
    requires c.size > 0 && Run(c, s, steps)
    decreases |steps|
  {
    Exclusive(s) && (steps != [] ==> ExclusiveRun(c, Apply(c, s, steps[0]), steps[1..]))
  }

  /** A start, from whatever the database holds as long as its sections are chained. */
  ghost predicate Init(c: Config, s: State) {
    && c.size > 0 && Sound(s.db)
    && s.job.Free? && s.updater.Idle?
    && s.checkpoint == 0 && s.known == 0 && s.count == s.stored
    && Chained(s.db, c.size, s.heads, 0, s.stored)
  }

  // -------------------------------------------------------------------------
  // The invariant
  // -------------------------------------------------------------------------

  ghost predicate Resting(job: Job) {
    job.Free? || job.Verifying?
  }

  /** The sections in memory and those a restart would read are both chained. */
  ghost predicate HeadsInv(c: Config, s: State) {
    && Chained(s.db, c.size, s.heads, s.checkpoint, s.stored)
    && Chained(s.db, c.size, s.heads, s.checkpoint, s.count)
  }

  ghost predicate TopPresent(s: State, n: nat) {
    n > 0 ==> n - 1 in s.heads
  }

  /** What a pending rewrite of the sections leaves behind is chained as well. */
  ghost predicate JobInv(c: Config, s: State) {
    if Resting(s.job) then
      !s.updater.Clearing? ==> s.count == s.stored && TopPresent(s, s.stored)
    else
      && Resting(s.job.resume)
      && TopPresent(s, s.job.target)
      && (if s.job.PutCount? then Chained(s.db, c.size, s.heads, s.checkpoint, s.job.target)
          else s.count == s.job.target && (s.job.Removing? ==> s.job.target <= s.stored))
  }

  /** Only an idle updater waits for a verification of its own. */
  ghost predicate LockInv(s: State) {
    && (s.job.Verifying? && !s.job.next.Release? ==> s.updater.Idle?)
    && (!Resting(s.job) && s.job.resume.Verifying? && !s.job.resume.next.Release? ==> s.updater.Idle?)
  }

  /** No section is completed behind the updater's back, except under a new checkpoint. */
  ghost predicate Behind(s: State, section: nat) {
    && s.stored <= Max(section, s.checkpoint)
    && (!Resting(s.job) ==> s.job.target <= Max(section, s.checkpoint))
  }

  /** The head below the updater's section survives only together with all the sections it completes. */
  ghost predicate Grounded(s: State, section: nat) {
    section > 0 && section - 1 in s.heads ==>
      || s.stored >= section
      || (!Resting(s.job) && s.job.target >= section)
      || (s.job.Removing? && s.stored == section - 1)
  }

  /** What the updater has read so far is one ancestry on top of the head it started from. */
  ghost predicate UpdaterInv(c: Config, s: State) {
    match s.updater
    case Idle => true
    case Processing(section, oldHead, number, last) =>
      && section * c.size <= number <= section * c.size + c.size
      && Spans(s.db, oldHead, last, number - 1, number - section * c.size)
      && (section == 0 ==> oldHead == NO_HASH)
      && Behind(s, section) && Grounded(s, section)
    case Clearing(_, _, phase) => phase != ClearCount ==> s.count == 0
    case Done(section, oldHead, result) =>
      && Behind(s, section)
      && (result.Some? ==>
            && Spans(s.db, oldHead, result.value, End(c.size, section), c.size)
            && (section == 0 ==> oldHead == NO_HASH) && Grounded(s, section))
  }

  ghost predicate Inv(c: Config, s: State) {
    c.size > 0 && Sound(s.db) && HeadsInv(c, s) && JobInv(c, s) && LockInv(s) && UpdaterInv(c, s)
  }

  lemma InitInv(c: Config, s: State)
    requires Init(c, s)
    ensures Inv(c, s)
  {
    if s.stored > 0 {
      assert Chains(s.db, c.size, s.heads, s.stored - 1);
    }
  }

  lemma ChainMovesInv(c: Config, s: State, db: Store, canon: map<nat, Hash>)
    requires Inv(c, s) && Grows(s.db, db) && Sound(db)
    ensures Inv(c, s.(db := db, canon := canon))
  {
    ChainedGrows(s.db, db, c.size, s.heads, s.checkpoint, s.stored);
    ChainedGrows(s.db, db, c.size, s.heads, s.checkpoint, s.count);
    if s.job.PutCount? {
      ChainedGrows(s.db, db, c.size, s.heads, s.checkpoint, s.job.target);
    }
    match s.updater {
      case Processing(section, oldHead, number, last) =>
        SpansGrows(s.db, db, oldHead, last, number - 1, number - section * c.size);
      case Done(section, oldHead, Some(head)) =>
        SpansGrows(s.db, db, oldHead, head, End(c.size, section), c.size);
      case _ =>
    }
  }

  lemma CheckpointInv(c: Config, s: State, section: nat, head: Hash)
    requires Inv(c, s) && s.job.Free? && !s.updater.Clearing?
    ensures Inv(c, AfterCheckpoint(s, section, head))
  {
  }

  /** Cutting back to a number of sections at or above the checkpoint leaves a present last head. */
  lemma CutInv(c: Config, s: State, target: nat)
    requires HeadsInv(c, s) && s.checkpoint <= target < s.stored
    ensures TopPresent(s, target) && Chained(s.db, c.size, s.heads, s.checkpoint, target)
  {
    assert Chains(s.db, c.size, s.heads, target);
  }

  lemma ReorgInv(c: Config, s: State, head: nat)
    requires Inv(c, s) && s.job.Free? && (s.updater.Clearing? ==> Exclusive(AfterReorg(c, s, head)))
    ensures Inv(c, AfterReorg(c, s, head))
  {
    var stored := Max((head + 1) / c.size, s.checkpoint);
    if stored < s.stored {
      CutInv(c, s, stored);
    }
    hide Chained, Spans;
  }

  lemma CutBackInv(c: Config, s: State)
    requires Inv(c, s) && s.job.Verifying? && !s.updater.Clearing? && Mismatch(c, s)
    ensures Inv(c, s.(job := PutCount(s.stored - 1, s.job)))
  {
    CutInv(c, s, s.stored - 1);
    hide Chained, Spans;
  }

  lemma BeginInv(c: Config, s: State)
    requires Inv(c, s) && s.job == Verifying(Begin) && !Mismatch(c, s)
    ensures Inv(c, AfterVerify(c, s))
  {
    hide Chained;
  }

  lemma VerifyInv(c: Config, s: State)
    requires Inv(c, s) && s.job.Verifying? && Exclusive(AfterVerify(c, s))
    ensures Inv(c, AfterVerify(c, s))
  {
    if Mismatch(c, s) {
      CutBackInv(c, s);
    } else if s.job.next.Begin? {
      BeginInv(c, s);
    } else {
      hide Chained, Spans;
    }
  }

  /** A change of the updater alone. */
  lemma UpdaterMoves(c: Config, s: State, u: Updater)
    requires Inv(c, s) && !s.updater.Clearing? && !s.updater.Idle? && !u.Clearing?
    requires UpdaterInv(c, s.(updater := u))
    ensures Inv(c, s.(updater := u))
  {
  }

  lemma ReadOne(db: Store, oldHead: Hash, last: Hash, number: nat, k: nat, hash: Hash)
    requires WellFormed(db) && Spans(db, oldHead, last, number - 1, k)
    requires GetBlock(db, hash, number).Some? && db[hash].parent == last
    ensures Spans(db, oldHead, db[hash].hash, number, k + 1)
  {
  }

  lemma NextSection(size: nat, section: nat)
    ensures (section + 1) * size == section * size + size == End(size, section) + 1
  {
  }

  lemma ReadInv(c: Config, s: State, accepted: bool)
    requires Inv(c, s) && s.updater.Processing?
    ensures Inv(c, AfterRead(c, s, accepted))
  {
    var u, s' := s.updater, AfterRead(c, s, accepted);
    assert s' == s.(updater := s'.updater);
    assert Behind(s', u.section) && Grounded(s', u.section);
    assert UpdaterInv(c, s') by {
      hide HeadsInv, JobInv, LockInv, Behind, Grounded, Spans, Sound, End;
      var first := u.section * c.size;
      NextSection(c.size, u.section);
      if u.number < first + c.size && s'.updater.Processing? {
        ReadOne(s.db, u.oldHead, u.last, u.number, u.number - first, Get(s.canon, u.number)) by {
          assert Sound(s.db);
        }
      }
    }
    UpdaterMoves(c, s, s'.updater);
  }

  lemma ClearInv(c: Config, s: State)
    requires Inv(c, s) && s.updater.Clearing? && Exclusive(s)
    ensures Inv(c, AfterClear(s))
  {
    if s.updater.phase == ClearRemove {
      RemoveKeeps(s.db, c.size, s.heads, s.checkpoint, s.stored, s.stored);
    }
  }

  lemma RemoveKeeps(db: Store, size: nat, heads: map<nat, Hash>, checkpoint: nat, n: nat, removed: nat)
    requires Chained(db, size, heads, checkpoint, n) && n <= removed
    ensures Chained(db, size, heads - {removed}, checkpoint, n)
  {
    forall i | checkpoint <= i < n ensures Chains(db, size, heads - {removed}, i) {
      assert Chains(db, size, heads, i);
    }
  }

  lemma RemoveInv(c: Config, s: State)
    requires Inv(c, s) && s.job.Removing? && Exclusive(s)
    ensures Inv(c, s.(heads := s.heads - {s.stored}, job := Shrinking(s.job.target, s.job.resume)))
  {
    RemoveKeeps(s.db, c.size, s.heads, s.checkpoint, s.stored, s.stored);
    RemoveKeeps(s.db, c.size, s.heads, s.checkpoint, s.count, s.stored);
  }

  /** A new head on top of n sections, none of which reaches past it. */
  lemma HeadSetKeeps(db: Store, size: nat, heads: map<nat, Hash>, checkpoint: nat, n: nat, section: nat, head: Hash)
    requires Chained(db, size, heads, checkpoint, n) && n <= Max(section, checkpoint)
    ensures Chained(db, size, heads[section := head], checkpoint, n)
  {
    var heads' := heads[section := head];
    forall i | checkpoint <= i < n ensures Chains(db, size, heads', i) {
      assert Chains(db, size, heads, i);
    }
  }

  lemma FinishInv(c: Config, s: State)
    requires Inv(c, s) && s.job.Free? && s.updater.Done?
    ensures Inv(c, AfterFinish(s))
  {
    var u := s.updater;
    if u.result.Some? && (u.section == 0 || u.oldHead == Get(s.heads, u.section - 1)) {
      HeadSetKeeps(s.db, c.size, s.heads, s.checkpoint, s.stored, u.section, u.result.value);
      NewSectionChained(c, s);
    }
  }

  lemma NewSectionChained(c: Config, s: State)
    requires Inv(c, s) && s.job.Free? && s.updater.Done? && s.updater.result.Some?
    requires s.updater.section == 0 || s.updater.oldHead == Get(s.heads, s.updater.section - 1)
    ensures Chained(s.db, c.size, s.heads[s.updater.section := s.updater.result.value], s.checkpoint, s.updater.section + 1)
  {
    var section, head := s.updater.section, s.updater.result.value;
    var heads := s.heads[section := head];
    EndBefore(c.size, section);
    if section > 0 {
      SpanBottom(s.db, s.updater.oldHead, head, End(c.size, section), c.size);
    }
    assert Chains(s.db, c.size, heads, section);
    forall i | s.checkpoint <= i < section ensures Chains(s.db, c.size, heads, i) {
      assert Chains(s.db, c.size, s.heads, i);
    }
  }

  lemma ShrinkOneInv(c: Config, s: State)
    requires Inv(c, s) && s.job.Shrinking? && Exclusive(s) && s.stored > s.job.target
    ensures Inv(c, s.(stored := s.stored - 1, job := Removing(s.job.target, s.job.resume)))
  {
    hide Chains, Spans;
  }

  lemma ShrinkEndInv(c: Config, s: State)
    requires Inv(c, s) && s.job.Shrinking? && Exclusive(s) && s.stored <= s.job.target
    ensures Inv(c, s.(stored := s.job.target, job := s.job.resume))
  {
    hide Chained, Spans;
  }

  lemma PutInv(c: Config, s: State)
    requires Inv(c, s) && s.job.PutCount? && Exclusive(s)
    ensures Inv(c, Apply(c, s, Put))
  {
    hide Chains, Spans;
  }

  lemma {:induction false} StepInv(c: Config, s: State, step: Step)
    requires Inv(c, s) && Enabled(c, s, step) && Exclusive(s) && Exclusive(Apply(c, s, step))
    ensures Inv(c, Apply(c, s, step))
  {
    match step
    case ChainMoves(db, canon) => ChainMovesInv(c, s, db, canon);
    case AddCheckpoint(section, head) =>
      if s.checkpoint < section + 1 && s.stored <= section {
        CheckpointInv(c, s, section, head);
      }
    case Reorg(head) => ReorgInv(c, s, head);
    case NewHead(head) => KnownInv(c, s, AfterNewHead(c, s, head).known);
    case AskSections => AskInv(c, s, Release);
    case Tick => AskInv(c, s, Begin);
    case Verify => VerifyInv(c, s);
    case Put => PutInv(c, s);
    case Shrink => if s.stored > s.job.target { ShrinkOneInv(c, s); } else { ShrinkEndInv(c, s); }
    case Remove => RemoveInv(c, s);
    case ReadBlock(accepted) => ReadInv(c, s, accepted);
    case ResetFails => ResetInv(c, s);
    case Clear => ClearInv(c, s);
    case Finish => FinishInv(c, s);
  }

  lemma KnownInv(c: Config, s: State, known: nat)
    requires Inv(c, s)
    ensures Inv(c, s.(known := known))
  {
  }

  lemma AskInv(c: Config, s: State, next: Next)
    requires Inv(c, s) && s.job.Free? && (next.Release? || s.updater.Idle?)
    ensures Inv(c, s.(job := Verifying(next)))
  {
  }

  lemma ResetInv(c: Config, s: State)
    requires Inv(c, s) && s.updater.Processing?
    ensures Inv(c, s.(updater := Clearing(s.updater.section, s.updater.oldHead, ClearCount)))
  {
  }

  /**
   Safety over whole runs: in every state that is reached, and so between any two database writes, every
   section head at or above the checkpoint is exactly one section above the one before it.
   */
  lemma {:induction false} RunInv(c: Config, s: State, steps: seq<Step>)
    requires Inv(c, s) && Run(c, s, steps) && ExclusiveRun(c, s, steps)
    ensures Inv(c, Exec(c, s, steps))
    decreases |steps|
  {
    if steps != [] {
      StepInv(c, s, steps[0]);
      RunInv(c, Apply(c, s, steps[0]), steps[1..]);
    }
  }

  lemma ReachableHeadsChained(c: Config, s: State, steps: seq<Step>)
    requires Init(c, s) && Run(c, s, steps) && ExclusiveRun(c, s, steps)
    ensures HeadsInv(c, Exec(c, s, steps))
  {
    InitInv(c, s);
    RunInv(c, s, steps);
  }

  /**
   When a verification stops on a match, the heads of all sections down to the checkpoint's own are canonical,
   whatever reorganisations happened while sections were processed.
   */
  lemma VerifiedHeadsCanonical(c: Config, s: State, steps: seq<Step>, i: nat)
    requires Init(c, s) && Run(c, s, steps) && ExclusiveRun(c, s, steps)
    requires var t := Exec(c, s, steps);
      && t.job.Verifying? && t.checkpoint < t.stored && !Mismatch(c, t)
      && CanonLinked(t.db, t.canon, End(c.size, t.stored - 1))
      && t.checkpoint <= i + 1 && i < t.stored
    ensures var t := Exec(c, s, steps);
      i in t.heads && t.heads[i] == Get(t.canon, End(c.size, i))
  {
    ReachableHeadsChained(c, s, steps);
    var t := Exec(c, s, steps);
    HeadsCanonical(t.db, c.size, t.canon, t.heads, t.checkpoint, t.stored, i);
  }

  /** As long as no reset fails nothing is cleared without the lock, so nothing overlaps. */
  lemma {:induction false} ResetFreeIsExclusive(c: Config, s: State, steps: seq<Step>)
    requires c.size > 0 && Run(c, s, steps) && !s.updater.Clearing? && ResetFails !in steps
    ensures ExclusiveRun(c, s, steps)
    decreases |steps|
  {
    if steps != [] {
      assert steps[0] in steps;
      ResetFreeIsExclusive(c, Apply(c, s, steps[0]), steps[1..]);
    }
  }

  /** Every run in which no reset fails keeps the section heads chained, however its steps interleave. */
  lemma ResetFreeHeadsChained(c: Config, s: State, steps: seq<Step>)
    requires Init(c, s) && Run(c, s, steps) && ResetFails !in steps
    ensures HeadsInv(c, Exec(c, s, steps))
  {
    ResetFreeIsExclusive(c, s, steps);
    ReachableHeadsChained(c, s, steps);
  }

  /** And when a verification stops on a match in such a run, all heads down to the checkpoint's own are canonical. */
  lemma ResetFreeHeadsCanonical(c: Config, s: State, steps: seq<Step>, i: nat)
    requires Init(c, s) && Run(c, s, steps) && ResetFails !in steps
    requires var t := Exec(c, s, steps);
      && t.job.Verifying? && t.checkpoint < t.stored && !Mismatch(c, t)
      && CanonLinked(t.db, t.canon, End(c.size, t.stored - 1))
      && t.checkpoint <= i + 1 && i < t.stored
    ensures var t := Exec(c, s, steps);
      i in t.heads && t.heads[i] == Get(t.canon, End(c.size, i))
  {
    ResetFreeIsExclusive(c, s, steps);
    VerifiedHeadsCanonical(c, s, steps, i);
  }

  // -------------------------------------------------------------------------
  // Restarts
  // -------------------------------------------------------------------------

  /** The process stops between two database writes and starts again. */
  function Restarted(s: State): State {
    s.(stored := s.count, known := 0, checkpoint := 0, checkpointHead := NO_HASH, job := Free, updater := Idle)
  }

  /** Without a checkpoint the database can be read back after a stop at any point. */
  lemma RestartIsSafe(c: Config, s: State)
    requires Inv(c, s) && s.checkpoint == 0
    ensures Init(c, Restarted(s))
  {
  }

  /** With one, the sections below the checkpoint need not be there, and adding it again has no effect. */
  lemma RestartForgetsCheckpoint(c: Config, s: State, section: nat, head: Hash)
    requires Inv(c, s) && s.checkpoint == section + 1 && Resting(s.job) && s.stored > section
    requires !s.updater.Clearing?
    ensures AfterCheckpoint(Restarted(s), section, head) == Restarted(s)
    ensures Init(c, Restarted(s)) <==> Chained(s.db, c.size, s.heads, 0, s.checkpoint)
  {
    if Chained(s.db, c.size, s.heads, 0, s.checkpoint) {
      forall i | 0 <= i < s.count ensures Chains(s.db, c.size, s.heads, i) {
        assert i < s.checkpoint || Chains(s.db, c.size, s.heads, i);
      }
    }
  }

  // -------------------------------------------------------------------------
  // The clearing without the lock
  // -------------------------------------------------------------------------

  /** Removing a head leaves n sections chained exactly when neither that section nor the next is among them. */
  lemma RemovalExact(db: Store, size: nat, heads: map<nat, Hash>, checkpoint: nat, n: nat, removed: nat)
    requires Chained(db, size, heads, checkpoint, n)
    ensures Chained(db, size, heads - {removed}, checkpoint, n) <==> Spared(checkpoint, n, removed)
  {
    if Spared(checkpoint, n, removed) {
      forall i | checkpoint <= i < n ensures Chains(db, size, heads - {removed}, i) {
        assert Chains(db, size, heads, i);
      }
    } else if checkpoint <= removed < n {
      assert !Chains(db, size, heads - {removed}, removed);
    } else {
      assert !Chains(db, size, heads - {removed}, removed + 1);
    }
  }

  predicate Spared(checkpoint: nat, n: nat, removed: nat) {
    !(checkpoint <= removed < n) && !(checkpoint <= removed + 1 < n)
  }

  predicate RewritesSections(step: Step) {
    step.Put? || step.Shrink? || step.Remove? || step.Clear?
  }

  /** When a step that rewrites the sections leaves them chained, whatever overlaps it. */
  ghost predicate Harmless(c: Config, s: State, step: Step)
    requires Enabled(c, s, step)
  {
    match step
    case Put => Chained(s.db, c.size, s.heads, s.checkpoint, s.job.target)
    case Shrink => s.stored > s.job.target || Chained(s.db, c.size, s.heads, s.checkpoint, s.job.target)
    case Remove => Spared(s.checkpoint, s.count, s.stored)
    case Clear => s.updater.phase == ClearRemove ==> Spared(s.checkpoint, s.count, s.stored)
    case _ => true
  }

  /**
   Exactly when a step of a rewrite or of the clearing keeps the heads chained, with or without overlap: a removal
   does if the count on disk covers neither that section nor the next, a final count if it covers no missing head.
   */
  lemma OverlapStep(c: Config, s: State, step: Step)
    requires c.size > 0 && HeadsInv(c, s) && Enabled(c, s, step) && RewritesSections(step)
    ensures HeadsInv(c, Apply(c, s, step)) <==> Harmless(c, s, step)
  {
    RemovalExact(s.db, c.size, s.heads, s.checkpoint, s.stored, s.stored);
    RemovalExact(s.db, c.size, s.heads, s.checkpoint, s.count, s.stored);
    hide Chains;
  }

  lemma Prepend(c: Config, s: State, step: Step, rest: seq<Step>)
    requires c.size > 0 && Enabled(c, s, step) && Run(c, Apply(c, s, step), rest)
    ensures Run(c, s, [step] + rest) && Exec(c, s, [step] + rest) == Exec(c, Apply(c, s, step), rest)
  {
    assert ([step] + rest)[1..] == rest;
  }

  lemma {:induction false} ClearRuns(c: Config, s: State, rest: seq<Step>)
    requires c.size > 0 && s.updater.Clearing? && s.updater.phase == ClearLoop
    requires Run(c, Cleared(s), rest)
    ensures Run(c, s, Clears(s.stored) + rest) && Exec(c, s, Clears(s.stored) + rest) == Exec(c, Cleared(s), rest)
    decreases s.stored
  {
    var s1 := AfterClear(s);
    if s.stored == 0 {
      assert Truncated(s.heads, 0, 0) == s.heads;
      assert s1 == Cleared(s);
      Prepend(c, s, Clear, rest);
    } else {
      var s2 := AfterClear(s1);
      assert Truncated(s2.heads, 0, s2.stored) == Truncated(s.heads, 0, s.stored);
      ClearRuns(c, s2, rest);
      Prepend(c, s1, Clear, Clears(s2.stored) + rest);
      Prepend(c, s, Clear, [Clear] + (Clears(s2.stored) + rest));
      assert Clears(s.stored) + rest == [Clear] + ([Clear] + (Clears(s2.stored) + rest));
    }
  }

  ghost function Clears(n: nat): seq<Step> {
    if n == 0 then [Clear] else [Clear, Clear] + Clears(n - 1)
  }

  /** All sections dropped. */
  function Cleared(s: State): State
    requires s.updater.Clearing?
  {
    s.(stored := 0, heads := Truncated(s.heads, 0, s.stored), updater := Done(s.updater.section, s.updater.oldHead, None))
  }

  /** The clearing runs while a rewrite to target sections has the lock, which then carries on. */
  ghost function Overlap(s: State): seq<Step> {
    [Clear] + (Clears(s.stored) + [Put, Shrink])
  }

  lemma OverlapRuns(c: Config, s: State)
    requires c.size > 0 && s.job.PutCount? && s.job.target < s.stored
    requires s.updater.Clearing? && s.updater.phase == ClearCount
    ensures Run(c, s, Overlap(s))
    ensures var t := Exec(c, s, Overlap(s));
      && t.stored == t.count == s.job.target && t.checkpoint == s.checkpoint && t.job == s.job.resume
      && (HeadsInv(c, t) <==> s.job.target <= s.checkpoint)
  {
    var s1 := AfterClear(s);
    var s2 := Cleared(s1);
    var s3 := Apply(c, s2, Put);
    var t := Apply(c, s3, Shrink);
    assert t.stored == t.count == s.job.target && t.heads == Truncated(s.heads, 0, s.stored);
    Prepend(c, s3, Shrink, []);
    Prepend(c, s2, Put, [Shrink]);
    assert [Put] + [Shrink] == [Put, Shrink] && [Shrink] + [] == [Shrink];
    ClearRuns(c, s1, [Put, Shrink]);
    Prepend(c, s, Clear, Clears(s.stored) + [Put, Shrink]);
    if s.checkpoint < s.job.target {
      assert !Chains(t.db, c.size, t.heads, s.checkpoint);
    }
  }

  /**
   Without exclusion the safety fails: a reorganisation that is overtaken by the clearing declares sections valid
   whose heads are gone. It does no harm exactly when the checkpoint covers all the sections it keeps.
   */
  lemma ReorgDuringClear(c: Config, s: State, head: nat)
    requires Inv(c, s) && s.job.Free? && s.updater.Clearing? && s.updater.phase == ClearCount
    requires Max((head + 1) / c.size, s.checkpoint) < s.stored
    ensures var steps := [Reorg(head)] + Overlap(AfterReorg(c, s, head));
      && Run(c, s, steps) && Exec(c, s, steps).job.Free?
      && (HeadsInv(c, Exec(c, s, steps)) <==> (head + 1) / c.size <= s.checkpoint)
  {
    var s1 := AfterReorg(c, s, head);
    OverlapRuns(c, s1);
    Prepend(c, s, Reorg(head), Overlap(s1));
  }

  ghost function ExampleStore(): Store {
    map[1 := Block(1, 0, 0, 1, 0, []), 2 := Block(2, 1, 1, 1, 0, [])]
  }

  ghost function ExampleChain(): map<nat, Hash> {
    map[0 := 1, 1 := 2]
  }

  ghost function ExampleStart(): State {
    State(ExampleStore(), ExampleChain(), ExampleChain(), 2, 2, 0, 0, NO_HASH, Free, Idle)
  }

  lemma ExampleSound()
    ensures Sound(ExampleStore())
  {
  }

  lemma ExampleChains(i: nat)
    requires i < 2
    ensures Chains(ExampleStore(), 1, ExampleChain(), i)
  {
    var db, chain := ExampleStore(), ExampleChain();
    assert Spans(db, Below(chain, i), Below(chain, i), i - 1, 0);
    assert GetBlock(db, chain[i], i).Some? && db[chain[i]].parent == Below(chain, i);
  }

  lemma ExampleChained()
    ensures Chained(ExampleStore(), 1, ExampleChain(), 0, 2)
  {
    hide ExampleStore, ExampleChain, Chains;
    forall i: nat | i < 2 ensures Chains(ExampleStore(), 1, ExampleChain(), i) {
      ExampleChains(i);
    }
  }

  lemma ExampleInit()
    ensures Init(Config(1, 0), ExampleStart())
  {
    ExampleSound();
    ExampleChained();
    hide Sound, Chained, ExampleStore, ExampleChain;
  }

  lemma ExampleKnown(c: Config, s: State)
    requires c == Config(1, 0) && s.job.Free? && s.known == s.checkpoint == 0
    ensures AfterNewHead(c, s, 2) == s.(known := 3)
  {
  }

  lemma ExampleBegin(c: Config, s: State)
    requires c == Config(1, 0) && s.job == Verifying(Begin) && s.stored == 2 && s.checkpoint == 0
    requires Get(s.heads, 1) == Get(s.canon, 1)
    ensures !Mismatch(c, s)
  {
    hide AfterVerify;
  }

  lemma BeginState(c: Config, s: State)
    requires s.job == Verifying(Begin) && !Mismatch(c, s)
    ensures var head := Below(s.heads, s.stored);
      AfterVerify(c, s) == s.(job := Free, updater := Processing(s.stored, head, s.stored * c.size, head))
  {
  }

  lemma StepsFollow(c: Config, s: State, rest: seq<Step>)
    requires c.size > 0 && s.job.Free? && s.updater.Idle?
    requires var s1 := AfterNewHead(c, s, 2);
      && s1.job.Free? && s1.updater.Idle? && s1.known > s1.stored
      && var s3 := AfterVerify(c, s1.(job := Verifying(Begin)));
      && s3.updater.Processing? && s3.updater.number == s3.updater.section * c.size
      && Run(c, s3.(updater := Clearing(s3.updater.section, s3.updater.oldHead, ClearCount)), rest)
    ensures
      var s3 := AfterVerify(c, AfterNewHead(c, s, 2).(job := Verifying(Begin)));
      var t := s3.(updater := Clearing(s3.updater.section, s3.updater.oldHead, ClearCount));
      var steps := [NewHead(2)] + ([Tick] + ([Verify] + ([ResetFails] + rest)));
      Run(c, s, steps) && Exec(c, s, steps) == Exec(c, t, rest)
  {
    var s1 := AfterNewHead(c, s, 2);
    var s2 := s1.(job := Verifying(Begin));
    var s3 := AfterVerify(c, s2);
    hide Run, Exec, AfterNewHead, AfterVerify;
    Prepend(c, s3, ResetFails, rest);
    Prepend(c, s2, Verify, [ResetFails] + rest);
    Prepend(c, s1, Tick, [Verify] + ([ResetFails] + rest));
    Prepend(c, s, NewHead(2), [Tick] + ([Verify] + ([ResetFails] + rest)));
  }

  lemma ExampleFacts(s: State)
    requires s == ExampleStart()
    ensures s.job.Free? && s.updater.Idle? && s.stored == 2 && s.known == s.checkpoint == 0
    ensures Get(s.heads, 1) == Get(s.canon, 1) && Max((0 + 1) / 1, 0) == 1
  {
  }

  /** Such a run from a start: two one-block sections, a failed reset, and a reorganisation that keeps one of them. */
  lemma RaceExample() returns (c: Config, s: State, steps: seq<Step>)
    ensures Init(c, s) && Run(c, s, steps) && !HeadsInv(c, Exec(c, s, steps))
  {
    hide *;
    c, s := Config(1, 0), ExampleStart();
    ExampleFacts(s);
    ExampleInit();
    InitInv(c, s);
    ExampleKnown(c, s);
    var s1 := s.(known := 3);
    KnownInv(c, s, 3);
    var s2 := s1.(job := Verifying(Begin));
    AskInv(c, s1, Begin);
    ExampleBegin(c, s2);
    BeginState(c, s2);
    var s3 := AfterVerify(c, s2);
    BeginInv(c, s2);
    ResetInv(c, s3);
    var t := s3.(updater := Clearing(s3.updater.section, s3.updater.oldHead, ClearCount));
    ReorgDuringClear(c, t, 0);
    StepsFollow(c, s, [Reorg(0)] + Overlap(AfterReorg(c, t, 0)));
    steps := [NewHead(2)] + ([Tick] + ([Verify] + ([ResetFails] + ([Reorg(0)] + Overlap(AfterReorg(c, t, 0))))));
  }

  // -------------------------------------------------------------------------
  // Whole operations
  // -------------------------------------------------------------------------

  /** The state in which a pending rewrite releases the lock, when nothing interferes. */
  function Settled(s: State): State {
    if s.job.PutCount? then
      s.(count := s.job.target, stored := s.job.target, heads := Truncated(s.heads, s.job.target, s.stored), job := s.job.resume)
    else s
  }

  /** A rewrite that nothing interferes with is a run of single writes. */
  lemma Settles(c: Config, s: State) returns (steps: seq<Step>)
    requires c.size > 0 && s.job.PutCount? && !s.updater.Clearing?
    ensures Run(c, s, steps) && ExclusiveRun(c, s, steps) && Exec(c, s, steps) == Settled(s)
  {
    var s1 := Apply(c, s, Put);
    steps := Shrinks(c, s1);
    PrependExclusive(c, s, Put, steps);
    steps := [Put] + steps;
  }

  lemma PrependExclusive(c: Config, s: State, step: Step, rest: seq<Step>)
    requires c.size > 0 && Enabled(c, s, step) && Run(c, Apply(c, s, step), rest)
    requires Exclusive(s) && ExclusiveRun(c, Apply(c, s, step), rest)
    ensures Run(c, s, [step] + rest) && ExclusiveRun(c, s, [step] + rest)
    ensures Exec(c, s, [step] + rest) == Exec(c, Apply(c, s, step), rest)
  {
    assert ([step] + rest)[1..] == rest;
  }

  lemma {:induction false} Shrinks(c: Config, s: State) returns (steps: seq<Step>)
    requires c.size > 0 && s.job.Shrinking? && !s.updater.Clearing?
    ensures Run(c, s, steps) && ExclusiveRun(c, s, steps)
    ensures Exec(c, s, steps) ==
            s.(stored := s.job.target, heads := Truncated(s.heads, s.job.target, s.stored), job := s.job.resume)
    decreases s.stored
  {
    var s1 := Apply(c, s, Shrink);
    if s.stored <= s.job.target {
      assert Truncated(s.heads, s.job.target, s.stored) == s.heads;
      PrependExclusive(c, s, Shrink, []);
      steps := [Shrink] + [];
    } else {
      var s2 := Apply(c, s1, Remove);
      assert Truncated(s2.heads, s.job.target, s2.stored) == Truncated(s.heads, s.job.target, s.stored);
      steps := Shrinks(c, s2);
      PrependExclusive(c, s1, Remove, steps);
      PrependExclusive(c, s, Shrink, [Remove] + steps);
      steps := [Shrink] + ([Remove] + steps);
    }
  }

  lemma SettledInv(c: Config, s: State)
    requires Inv(c, s) && !s.updater.Clearing?
    ensures Inv(c, Settled(s))
  {
    if s.job.PutCount? {
      var steps := Settles(c, s);
      RunInv(c, s, steps);
    }
  }

  // -------------------------------------------------------------------------
  // Every interleaving of the clearing with one rewrite
  // -------------------------------------------------------------------------

  /** The heads from the section count up to n are gone, except one that the clearing is about to remove. */
  ghost predicate GoneFrom(s: State, n: nat) {
    && (forall i :: s.stored < i < n ==> i !in s.heads)
    && (s.stored < n && !(s.updater.Clearing? && s.updater.phase == ClearRemove) ==> s.stored !in s.heads)
  }

  ghost predicate AllGone(s: State, n: nat) {
    forall i :: 0 <= i < n ==> i !in s.heads
  }

  /** A rewrite to n sections and the clearing, each at some point of its way or finished. */
  ghost predicate Overlapping(s: State, n: nat) {
    && (Resting(s.job) || (s.job.target == n && Resting(s.job.resume)))
    && (s.updater.Clearing? || s.updater.Done?)
    && (s.updater.Clearing? ==> GoneFrom(s, n))
    && (s.updater.Done? ==> AllGone(s, n))
    && (s.updater.Done? && Resting(s.job) ==> s.stored == 0 || s.stored == n)
    && (s.count == 0 || s.count == n || (s.job.PutCount? && s.updater.Clearing? && s.updater.phase == ClearCount))
  }

  lemma OverlapKept(c: Config, s: State, step: Step, n: nat)
    requires c.size > 0 && Overlapping(s, n) && Enabled(c, s, step) && RewritesSections(step)
    ensures Overlapping(Apply(c, s, step), n) && Apply(c, s, step).checkpoint == s.checkpoint
  {
    if step.Clear? {
      ClearOverlaps(s, n);
    } else if step.Remove? {
      RemoveOverlaps(s, n);
    } else {
      hide AllGone;
    }
  }

  lemma ClearOverlaps(s: State, n: nat)
    requires Overlapping(s, n) && s.updater.Clearing?
    ensures Overlapping(AfterClear(s), n)
  {
  }

  lemma RemoveOverlaps(s: State, n: nat)
    requires Overlapping(s, n) && s.job.Removing?
    ensures Overlapping(s.(heads := s.heads - {s.stored}, job := Shrinking(s.job.target, s.job.resume)), n)
  {
  }

  lemma {:induction false} OverlapRun(c: Config, s: State, steps: seq<Step>, n: nat)
    requires c.size > 0 && Overlapping(s, n) && Run(c, s, steps)
    requires forall k :: 0 <= k < |steps| ==> RewritesSections(steps[k])
    ensures Overlapping(Exec(c, s, steps), n) && Exec(c, s, steps).checkpoint == s.checkpoint
    decreases |steps|
  {
    if steps != [] {
      OverlapKept(c, s, steps[0], n);
      OverlapRun(c, Apply(c, s, steps[0]), steps[1..], n);
    }
  }

  ghost predicate Over(s: State) {
    Resting(s.job) && s.updater.Done?
  }

  /** Whichever of the two ends last decides the section count in memory. */
  lemma {:induction false} LastOneDecides(c: Config, s: State, steps: seq<Step>, n: nat)
    requires c.size > 0 && Overlapping(s, n) && Run(c, s, steps) && !Over(s) && Over(Exec(c, s, steps))
    requires forall k :: 0 <= k < |steps| ==> RewritesSections(steps[k])
    ensures steps != [] && Exec(c, s, steps).stored == if steps[|steps| - 1] == Clear then 0 else n
    decreases |steps|
  {
    assert steps != [];
    var s1, rest := Apply(c, s, steps[0]), steps[1..];
    OverlapKept(c, s, steps[0], n);
    if rest == [] {
      assert Exec(c, s1, rest) == s1;
      hide Run, Exec, Overlapping;
      LastStep(c, s, steps[0], n);
    } else {
      assert rest[|rest| - 1] == steps[|steps| - 1] && Enabled(c, s1, rest[0]) && RewritesSections(rest[0]);
      assert !Over(s1);
      hide Overlapping, Apply;
      LastOneDecides(c, s1, rest, n);
    }
  }

  lemma LastStep(c: Config, s: State, step: Step, n: nat)
    requires c.size > 0 && Overlapping(s, n) && !Over(s) && Enabled(c, s, step) && RewritesSections(step)
    requires Over(Apply(c, s, step))
    ensures Apply(c, s, step).stored == if step == Clear then 0 else n
  {
    hide GoneFrom, AllGone;
  }

  /** The clearing and a rewrite that does not raise the section count have met, one of them having just begun. */
  ghost predicate Meet(s: State) {
    && !Resting(s.job) && Resting(s.job.resume) && s.job.target <= s.stored && s.updater.Clearing?
    && (s.job.PutCount? || s.count == s.job.target) && (s.updater.phase == ClearCount || s.count == 0)
  }

  /**
   The exact condition for every interleaving: when both are through, no head below the rewrite's target is left, and
   the sections are chained if and only if neither the count in memory nor that on disk is above the checkpoint.
   */
  lemma OverlapExact(c: Config, s: State, steps: seq<Step>)
    requires c.size > 0 && Meet(s) && Run(c, s, steps)
    requires forall k :: 0 <= k < |steps| ==> RewritesSections(steps[k])
    requires Over(Exec(c, s, steps))
    ensures steps != []
    ensures var t := Exec(c, s, steps);
      && AllGone(t, s.job.target) && t.checkpoint == s.checkpoint
      && t.stored == (if steps[|steps| - 1] == Clear then 0 else s.job.target)
      && (t.count == 0 || t.count == s.job.target)
      && (HeadsInv(c, t) <==> t.stored <= s.checkpoint && t.count <= s.checkpoint)
  {
    OverlapRun(c, s, steps, s.job.target);
    LastOneDecides(c, s, steps, s.job.target);
    var t := Exec(c, s, steps);
    if t.stored > t.checkpoint || t.count > t.checkpoint {
      assert !Chains(t.db, c.size, t.heads, t.checkpoint);
    }
  }

  // -------------------------------------------------------------------------
  // Checkpoints and restarts
  // -------------------------------------------------------------------------

  /** The checkpoint's head continues the index: it is one section above the last head, and no section is missing. */
  ghost predicate Continues(c: Config, s: State, section: nat, head: Hash) {
    && (forall i :: s.stored <= i < section ==> Chains(s.db, c.size, s.heads, i))
    && (section > 0 ==> section - 1 in s.heads)
    && Spans(s.db, Below(s.heads, section), head, End(c.size, section), c.size)
  }

  /**
   The exact condition, known before the checkpoint is added, for a later restart to find a chained index: it would
   have found one before, and the checkpoint continues it.
   */
  lemma CheckpointRecovery(c: Config, s: State, section: nat, head: Hash)
    requires Inv(c, s) && s.job.Free? && !s.updater.Clearing?
    requires s.checkpoint < section + 1 && s.stored <= section
    ensures var t := Settled(AfterCheckpoint(s, section, head));
      Init(c, Restarted(t)) <==> Init(c, Restarted(s)) && Continues(c, s, section, head)
  {
    var t := Settled(AfterCheckpoint(s, section, head));
    var heads := s.heads[section := head];
    assert t.heads == heads && t.count == section + 1 && s.count == s.stored;
    assert Chains(s.db, c.size, heads, section) <==>
           (section > 0 ==> section - 1 in s.heads) && Spans(s.db, Below(s.heads, section), head, End(c.size, section), c.size);
    assert forall i :: 0 <= i < section ==> (Chains(s.db, c.size, heads, i) <==> Chains(s.db, c.size, s.heads, i));
    hide Chains, Spans, Inv;
    if Chained(s.db, c.size, heads, 0, section + 1) {
      assert Chains(s.db, c.size, heads, section);
    }
  }

  /** Without left-over heads, a checkpoint continues the index only as the very next section. */
  lemma ContinuesAsNext(c: Config, s: State, section: nat, head: Hash)
    requires Inv(c, s) && s.job.Free? && !s.updater.Clearing? && s.stored <= section
    requires forall i :: i in s.heads ==> i < s.stored
    ensures Continues(c, s, section, head) <==>
            section == s.stored && Spans(s.db, Below(s.heads, section), head, End(c.size, section), c.size)
  {
    if section > s.stored {
      assert !Chains(s.db, c.size, s.heads, s.stored);
    }
  }

  /** A run from an empty index after which a restart does not find a chained one: a checkpoint above section zero. */
  lemma RestartExample() returns (c: Config, s: State, steps: seq<Step>)
    ensures Init(c, s) && Run(c, s, steps) && !Init(c, Restarted(Exec(c, s, steps)))
  {
    c, s := Config(1, 0), State(map[], map[], map[], 0, 0, 0, 0, NO_HASH, Free, Idle);
    InitInv(c, s);
    var s1 := AfterCheckpoint(s, 1, 5);
    assert s1.job == PutCount(2, Free) && !s1.updater.Clearing?;
    CheckpointRecovery(c, s, 1, 5);
    ContinuesAsNext(c, s, 1, 5);
    steps := Settles(c, s1);
    Prepend(c, s, AddCheckpoint(1, 5), steps);
    steps := [AddCheckpoint(1, 5)] + steps;
  }
}
