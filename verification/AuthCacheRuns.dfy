/**
 The discovery service's authorisation cache as a state machine: any number of concurrent calls, each a sequence
 of separate critical sections, interleaved with changes of the channels' configuration.
 */
module AuthCacheRuns {
  import opened Wrappers

  type Channel = string
  type Key = string

  datatype SignedData = SignedData(data: seq<int>, identity: seq<int>, signature: seq<int>)

  datatype Verdict = Eligible | Refused(reason: string)

  /**
   What the cache is built on: the data that may be submitted, its digest, which may fail, the check under a
   configuration sequence, and the configuration. A negative number of evictions never reaches zero.
   */
  datatype World = World(
    submitted: set<SignedData>,
    keyOf: SignedData -> Option<Key>,
    eligible: (Channel, nat, SignedData) -> Verdict,
    enabled: bool,
    maxSize: int,
    evictions: int)

  /** Where an entry comes from: the sequence it was computed under and the data it was computed for. */
  datatype Origin = Origin(seqNo: nat, data: SignedData)

  /** The cache is locked by a call between its second look at the sequence and its write; seqNo is what it saw. */
  datatype Lock = Lock(holder: nat, seqNo: nat)

  /** One channel's cache; the origins accompany the entries and are never looked at. */
  datatype Cache = Cache(channel: Channel, last: nat, entries: map<Key, Verdict>, origins: map<Key, Origin>, lock: Option<Lock>)

  datatype Outcome =
    | KeyError
    | Answer(verdict: Verdict, read: nat, origin: Origin)

  /** The next critical section of a call. */
  datatype Position =
    | Entered
    | Missing
    | Holding(id: nat)
    | Checking(id: nat, key: Key, read: nat)
    | LookingUp(id: nat, key: Key, read: nat)
    | Changing(id: nat, key: Key, read: nat)
    | Measuring(id: nat, key: Key, read: nat)
    | Purging(id: nat, key: Key, read: nat)
    | Computing(id: nat, key: Key, read: nat)
    | Storing(id: nat, key: Key, read: nat, verdict: Verdict, seqNo: nat)
    | Writing(id: nat, key: Key, read: nat, verdict: Verdict, seqNo: nat)
    | Returned(outcome: Outcome)

  /** A call in progress. start is the configuration sequence at the time of the call. */
  datatype Call = Call(channel: Channel, data: SignedData, start: nat, at: Position)

  datatype State = State(
    history: map<Channel, seq<nat>>,
    registry: map<Channel, nat>,
    caches: map<nat, Cache>,
    next: nat,
    calls: map<nat, Call>)

  datatype Step =
    | Reconfigure(channel: Channel, seqNo: nat)
    | Enter(call: nat, channel: Channel, data: SignedData)
    | Advance(call: nat, evicted: set<Key>)

  /** The configuration sequences a channel has had, oldest first; a channel without any counts as zero. */
  function History(s: State, channel: Channel): seq<nat> {
    if channel in s.history && s.history[channel] != [] then s.history[channel] else [0]
  }

  function Current(s: State, channel: Channel): nat {
    var h := History(s, channel);
    h[|h| - 1]
  }

  // -------------------------------------------------------------------------
  // The critical sections of one cache
  // -------------------------------------------------------------------------

  function OriginOf(c: Cache, key: Key): Origin {
    if key in c.origins then c.origins[key] else Origin(0, SignedData([], [], []))
  }

  function Emptied(c: Cache, seqNo: nat): Cache {
    c.(last := seqNo, entries := map[], origins := map[])
  }

  function Filled(c: Cache, key: Key, verdict: Verdict, origin: Origin): Cache {
    c.(entries := c.entries[key := verdict], origins := c.origins[key := origin])
  }

  function Without(c: Cache, evicted: set<Key>): Cache {
    c.(entries := c.entries - evicted, origins := c.origins - evicted)
  }

  /** A purge removes as many entries as configured, or all of them when there are fewer or the number is negative. */
  predicate Evicts(c: Cache, evictions: int, evicted: set<Key>) {
    && evicted <= c.entries.Keys
    && (|evicted| == evictions || (evicted == c.entries.Keys && (evictions < 0 || |c.entries| <= evictions)))
  }

  // -------------------------------------------------------------------------
  // Steps
  // -------------------------------------------------------------------------

  /** The call has got hold of a cache and not returned. */
  predicate InCache(c: Call) {
    !c.at.Entered? && !c.at.Missing? && !c.at.Returned?
  }

  /** The section needs the cache's lock, for reading or for writing. */
  predicate NeedsLock(c: Call) {
    InCache(c) && !c.at.Holding? && !c.at.Computing?
  }

  predicate Available(cache: Cache, call: nat) {
    cache.lock.None? || cache.lock.value.holder == call
  }

  predicate Enabled(w: World, s: State, step: Step) {
    match step
    case Reconfigure(channel, seqNo) => seqNo > Current(s, channel)
    case Enter(call, _, data) => call !in s.calls && data in w.submitted
    case Advance(call, evicted) =>
      && call in s.calls && !s.calls[call].at.Returned?
      && (InCache(s.calls[call]) ==> s.calls[call].at.id in s.caches)
      && (NeedsLock(s.calls[call]) ==> Available(s.caches[s.calls[call].at.id], call))
      && (s.calls[call].at.Purging? ==> Evicts(s.caches[s.calls[call].at.id], w.evictions, evicted))
  }

  function Moved(s: State, call: nat, at: Position): State
    requires call in s.calls
  {
    s.(calls := s.calls[call := s.calls[call].(at := at)])
  }

  function Created(s: State, channel: Channel): State {
    s.(caches := s.caches[s.next := Cache(channel, 0, map[], map[], None)],
       registry := s.registry[channel := s.next], next := s.next + 1)
  }

  /** Where a call goes on from the door. */
  function Routed(w: World, registry: map<Channel, nat>, now: nat, c: Call): Position {
    if !w.enabled then Returned(Answer(w.eligible(c.channel, now, c.data), now, Origin(now, c.data)))
    else if c.channel in registry then Holding(registry[c.channel])
    else Missing
  }

  /** What a critical section does to the cache, now being the current configuration sequence. */
  function NextCache(now: nat, cache: Cache, call: nat, c: Call, evicted: set<Key>): Cache {
    match c.at
    case Changing(_, _, read) => Emptied(cache, read)
    case Purging(_, _, _) => Without(cache, evicted)
    case Storing(_, _, read, _, _) => if read != now then cache else cache.(lock := Some(Lock(call, read)))
    case Writing(_, key, _, verdict, seqNo) => Filled(cache, key, verdict, Origin(seqNo, c.data)).(lock := None)
    case _ => cache
  }

  /** Where the critical section takes the call. */
  function NextAt(w: World, now: nat, cache: Cache, c: Call): Position {
    match c.at
    case Holding(id) =>
      (match w.keyOf(c.data)
       case None => Returned(KeyError)
       case Some(key) => Checking(id, key, now))
    case Checking(id, key, read) => if cache.last == read then LookingUp(id, key, read) else Changing(id, key, read)
    case LookingUp(id, key, read) =>
      if key in cache.entries then Returned(Answer(cache.entries[key], read, OriginOf(cache, key)))
      else Measuring(id, key, read)
    case Changing(id, key, read) => Measuring(id, key, read)
    case Measuring(id, key, read) =>
      if |cache.entries| + 1 > w.maxSize then Purging(id, key, read) else Computing(id, key, read)
    case Purging(id, key, read) => Computing(id, key, read)
    case Computing(id, key, read) => Storing(id, key, read, w.eligible(c.channel, now, c.data), now)
    case Storing(id, key, read, verdict, seqNo) =>
      if read != now then Returned(Answer(verdict, read, Origin(seqNo, c.data))) else Writing(id, key, read, verdict, seqNo)
    case Writing(id, key, read, verdict, seqNo) => Returned(Answer(verdict, read, Origin(seqNo, c.data)))
    case at => at
  }

  function Advanced(w: World, s: State, call: nat, evicted: set<Key>): State
    requires call in s.calls && (InCache(s.calls[call]) ==> s.calls[call].at.id in s.caches)
  {
    var c := s.calls[call];
    var now := Current(s, c.channel);
    if c.at.Entered? then Moved(s, call, Routed(w, s.registry, now, c))
    else if c.at.Missing? then Moved(Created(s, c.channel), call, Holding(s.next))
    else if c.at.Returned? then s
    else
      var cache := s.caches[c.at.id];
      Moved(s.(caches := s.caches[c.at.id := NextCache(now, cache, call, c, evicted)]), call, NextAt(w, now, cache, c))
  }

  function Apply(w: World, s: State, step: Step): State
    requires Enabled(w, s, step)
  {
    match step
    case Reconfigure(channel, seqNo) => s.(history := s.history[channel := History(s, channel) + [seqNo]])
    case Enter(call, channel, data) => s.(calls := s.calls[call := Call(channel, data, Current(s, channel), Entered)])
    case Advance(call, evicted) => Advanced(w, s, call, evicted)
  }

  ghost predicate Run(w: World, s: State, steps: seq<Step>)
    decreases |steps|
  {
    steps != [] ==> Enabled(w, s, steps[0]) && Run(w, Apply(w, s, steps[0]), steps[1..])
  }

  ghost function Exec(w: World, s: State, steps: seq<Step>): State
    requires Run(w, s, steps)
    decreases |steps|
  {
    if steps == [] then s else Exec(w, Apply(w, s, steps[0]), steps[1..])
  }

  ghost predicate Increasing(h: seq<nat>) {
    h != [] && forall i, j :: 0 <= i < j < |h| ==> h[i] < h[j]
  }

  ghost predicate Init(s: State) {
    && s.registry == map[] && s.caches == map[] && s.calls == map[]
    && forall channel :: Increasing(History(s, channel))
  }

  // -------------------------------------------------------------------------
  // The invariant
  // -------------------------------------------------------------------------

  /** The verdict is that of the check, for data with this key, under a sequence the channel has had. */
  ghost predicate Sourced(w: World, h: seq<nat>, channel: Channel, key: Key, verdict: Verdict, o: Origin) {
    o.seqNo in h && o.data in w.submitted && w.keyOf(o.data) == Some(key) && verdict == w.eligible(channel, o.seqNo, o.data)
  }

  ghost predicate AllSince(c: Cache, seqNo: nat) {
    forall key :: key in c.origins ==> c.origins[key].seqNo >= seqNo
  }

  /** No entry is older than the sequence the cache was last emptied for. */
  ghost predicate CacheInv(w: World, h: seq<nat>, c: Cache) {
    && c.origins.Keys == c.entries.Keys
    && (c.last in h || c.last == 0)
    && AllSince(c, c.last)
    && (c.lock.Some? ==> c.last <= c.lock.value.seqNo)
    && forall key :: key in c.origins ==> Sourced(w, h, c.channel, key, c.entries[key], c.origins[key])
  }

  ghost predicate OutcomeInv(w: World, h: seq<nat>, c: Call, outcome: Outcome) {
    match outcome
    case KeyError => w.keyOf(c.data).None?
    case Answer(verdict, read, o) =>
      && read in h && o.seqNo in h && c.start <= read <= o.seqNo
      && verdict == w.eligible(c.channel, o.seqNo, o.data)
      && (o.data == c.data ||
          (o.data in w.submitted && c.data in w.submitted && w.keyOf(c.data).Some? && w.keyOf(o.data) == w.keyOf(c.data)))
  }

  /** A call that found the cache valid sees no entry older than the sequence it read, nor does one that is being written. */
  ghost predicate InCacheInv(w: World, h: seq<nat>, cache: Cache, c: Call)
    requires InCache(c)
  {
    && cache.channel == c.channel && c.data in w.submitted
    && (!c.at.Holding? ==> w.keyOf(c.data) == Some(c.at.key) && c.at.read in h && c.start <= c.at.read)
    && (c.at.LookingUp? ==> AllSince(cache, c.at.read) && (cache.lock.Some? ==> c.at.read <= cache.lock.value.seqNo))
    && (c.at.Storing? || c.at.Writing? ==>
          c.at.seqNo in h && c.at.read <= c.at.seqNo && c.at.verdict == w.eligible(c.channel, c.at.seqNo, c.data))
    && (c.at.Writing? ==> c.at.seqNo == c.at.read)
  }

  ghost predicate CallInv(w: World, h: seq<nat>, caches: map<nat, Cache>, c: Call) {
    && c.start in h && c.data in w.submitted
    && (InCache(c) ==> c.at.id in caches && InCacheInv(w, h, caches[c.at.id], c))
    && (c.at.Returned? ==> OutcomeInv(w, h, c, c.at.outcome))
  }

  ghost predicate CachesInv(w: World, s: State) {
    && (forall id :: id in s.caches ==> id < s.next && CacheInv(w, History(s, s.caches[id].channel), s.caches[id]))
    && (forall channel :: channel in s.registry ==>
          s.registry[channel] in s.caches && s.caches[s.registry[channel]].channel == channel)
  }

  ghost predicate CallsInv(w: World, s: State) {
    forall call :: call in s.calls ==> CallInv(w, History(s, s.calls[call].channel), s.caches, s.calls[call])
  }

  /** A cache is locked exactly by the call that writes to it. */
  ghost predicate LocksInv(calls: map<nat, Call>, caches: map<nat, Cache>) {
    && (forall call :: call in calls && calls[call].at.Writing? && calls[call].at.id in caches ==>
          caches[calls[call].at.id].lock == Some(Lock(call, calls[call].at.read)))
    && (forall id :: id in caches && caches[id].lock.Some? ==>
          && caches[id].lock.value.holder in calls && calls[caches[id].lock.value.holder].at.Writing?
          && calls[caches[id].lock.value.holder].at.id == id)
  }

  ghost predicate Inv(w: World, s: State) {
    && (forall channel :: Increasing(History(s, channel)))
    && CachesInv(w, s) && CallsInv(w, s) && LocksInv(s.calls, s.caches)
  }

  lemma LastIsLargest(h: seq<nat>, x: nat)
    requires Increasing(h) && x in h
    ensures x <= h[|h| - 1]
  {
  }

  lemma SameHistory(s: State, s': State)
    requires s'.history == s.history
    ensures forall channel :: History(s', channel) == History(s, channel)
  {
  }

  /** A call moves on and touches nothing else. */
  lemma MovedInv(w: World, s: State, call: nat, at: Position)
    requires Inv(w, s) && call in s.calls && !s.calls[call].at.Writing? && !at.Writing?
    requires CallInv(w, History(s, s.calls[call].channel), s.caches, s.calls[call].(at := at))
    ensures Inv(w, Moved(s, call, at))
  {
    hide CallInv, History, Increasing, CallsInv, CachesInv, LocksInv;
    SameHistory(s, Moved(s, call, at));
    SameCaches(w, s, Moved(s, call, at));
    CallsMove(w, s, call, at);
    LocksStay(s.calls, s.caches, call, at);
  }

  lemma LocksStay(calls: map<nat, Call>, caches: map<nat, Cache>, call: nat, at: Position)
    requires LocksInv(calls, caches) && call in calls && !calls[call].at.Writing? && !at.Writing?
    ensures LocksInv(calls[call := calls[call].(at := at)], caches)
  {
  }

  lemma CallsMove(w: World, s: State, call: nat, at: Position)
    requires CallsInv(w, s) && call in s.calls
    requires CallInv(w, History(s, s.calls[call].channel), s.caches, s.calls[call].(at := at))
    ensures CallsInv(w, Moved(s, call, at))
  {
    hide CallInv, CacheInv, History, Increasing;
    SameHistory(s, Moved(s, call, at));
  }

  /** c keeps only entries of d, besides what a call that has d locked writes; a new lock is for the current sequence. */
  ghost predicate Keeps(h: seq<nat>, c: Cache, d: Cache) {
    && c.channel == d.channel && h != []
    && (forall key :: key in c.origins ==>
          || (key in d.origins && c.origins[key] == d.origins[key])
          || (d.lock.Some? && c.origins[key].seqNo >= d.lock.value.seqNo))
    && (c.lock.Some? ==> c.lock == d.lock || c.lock.value.seqNo == h[|h| - 1])
  }

  lemma KeepsSince(h: seq<nat>, c: Cache, d: Cache, read: nat)
    requires Increasing(h) && Keeps(h, c, d) && AllSince(d, read) && read in h
    requires d.lock.Some? ==> read <= d.lock.value.seqNo
    ensures AllSince(c, read) && (c.lock.Some? ==> read <= c.lock.value.seqNo)
  {
    LastIsLargest(h, read);
  }

  lemma CallStays(w: World, h: seq<nat>, caches: map<nat, Cache>, id: nat, c: Cache, call: Call)
    requires Increasing(h) && id in caches && c.channel == caches[id].channel && CallInv(w, h, caches, call)
    requires c.channel == call.channel ==> Keeps(h, c, caches[id])
    ensures CallInv(w, h, caches[id := c], call)
  {
    if call.at.LookingUp? && call.at.id == id {
      KeepsSince(h, c, caches[id], call.at.read);
    }
    hide Keeps, AllSince, Increasing;
  }

  lemma CachesChanged(w: World, s: State, id: nat, c: Cache)
    requires CachesInv(w, s) && id in s.caches && c.channel == s.caches[id].channel
    requires CacheInv(w, History(s, c.channel), c)
    ensures CachesInv(w, s.(caches := s.caches[id := c]))
  {
    hide CacheInv, History;
    SameHistory(s, s.(caches := s.caches[id := c]));
  }

  lemma CallsStay(w: World, s: State, id: nat, c: Cache)
    requires Inv(w, s) && id in s.caches && Keeps(History(s, s.caches[id].channel), c, s.caches[id])
    ensures CallsInv(w, s.(caches := s.caches[id := c]))
  {
    var s' := s.(caches := s.caches[id := c]);
    assert c.channel == s.caches[id].channel;
    hide CallInv, CachesInv, History, Increasing, Keeps, LocksInv;
    SameHistory(s, s');
    forall call | call in s'.calls
      ensures CallInv(w, History(s', s'.calls[call].channel), s'.caches, s'.calls[call])
    {
      CallStays(w, History(s, s.calls[call].channel), s.caches, id, c, s.calls[call]);
    }
  }

  lemma EmptiedCache(w: World, h: seq<nat>, c: Cache, read: nat)
    requires h != [] && read in h && c.lock.None?
    ensures CacheInv(w, h, Emptied(c, read)) && Keeps(h, Emptied(c, read), c)
  {
  }

  lemma WithoutCache(w: World, h: seq<nat>, c: Cache, evicted: set<Key>)
    requires h != [] && CacheInv(w, h, c)
    ensures CacheInv(w, h, Without(c, evicted)) && Keeps(h, Without(c, evicted), c)
  {
    assert Without(c, evicted).origins.Keys == Without(c, evicted).entries.Keys;
  }

  /** A result that is not older than what the cache was emptied for can be stored, whatever the current sequence is. */
  lemma FilledCache(w: World, h: seq<nat>, c: Cache, key: Key, verdict: Verdict, o: Origin)
    requires CacheInv(w, h, c) && o.seqNo >= c.last && Sourced(w, h, c.channel, key, verdict, o)
    ensures CacheInv(w, h, Filled(c, key, verdict, o)) && CacheInv(w, h, Filled(c, key, verdict, o).(lock := None))
  {
    var c' := Filled(c, key, verdict, o);
    hide Sourced;
    assert c'.origins.Keys == c'.entries.Keys;
  }

  lemma FilledKeeps(h: seq<nat>, c: Cache, key: Key, verdict: Verdict, o: Origin)
    requires h != [] && c.lock.Some? && o.seqNo >= c.lock.value.seqNo
    ensures Keeps(h, Filled(c, key, verdict, o).(lock := None), c)
  {
  }

  /** What the cache was emptied for is never newer than the current sequence. */
  lemma EmptiedBefore(w: World, h: seq<nat>, c: Cache)
    requires Increasing(h) && CacheInv(w, h, c)
    ensures c.last <= h[|h| - 1]
  {
    if c.last in h {
      LastIsLargest(h, c.last);
    }
  }

  lemma CacheOf(w: World, s: State, id: nat)
    requires Inv(w, s) && id in s.caches
    ensures Increasing(History(s, s.caches[id].channel)) && CacheInv(w, History(s, s.caches[id].channel), s.caches[id])
    ensures History(s, s.caches[id].channel) != []
  {
  }

  lemma CallOf(w: World, s: State, call: nat)
    requires Inv(w, s) && call in s.calls
    ensures CallInv(w, History(s, s.calls[call].channel), s.caches, s.calls[call])
    ensures Increasing(History(s, s.calls[call].channel))
    ensures Current(s, s.calls[call].channel) in History(s, s.calls[call].channel)
  {
  }

  // -------------------------------------------------------------------------
  // Every step keeps the invariant
  // -------------------------------------------------------------------------

  lemma RoutedInv(w: World, h: seq<nat>, caches: map<nat, Cache>, registry: map<Channel, nat>, c: Call)
    requires Increasing(h) && CallInv(w, h, caches, c) && c.at.Entered?
    requires c.channel in registry ==> registry[c.channel] in caches && caches[registry[c.channel]].channel == c.channel
    ensures CallInv(w, h, caches, c.(at := Routed(w, registry, h[|h| - 1], c)))
  {
    LastIsLargest(h, c.start);
  }

  /** Who needs the lock has it only when about to write. */
  ghost predicate LockFits(cache: Cache, call: nat, c: Call) {
    if c.at.Writing? then cache.lock == Some(Lock(call, c.at.read)) else NeedsLock(c) ==> cache.lock.None?
  }

  lemma LockOf(w: World, s: State, call: nat)
    requires Inv(w, s) && call in s.calls && InCache(s.calls[call]) && s.calls[call].at.id in s.caches
    requires NeedsLock(s.calls[call]) ==> Available(s.caches[s.calls[call].at.id], call)
    ensures LockFits(s.caches[s.calls[call].at.id], call, s.calls[call])
  {
    hide CachesInv, CallsInv, History, Increasing;
  }

  /**
   The heart of freshness. A cache valid for the sequence read has nothing older; a result is stored only under the
   lock, and what the cache was last emptied for cannot pass the sequence that was seen when the lock was taken.
   */
  lemma NextCacheInv(w: World, h: seq<nat>, cache: Cache, call: nat, c: Call, evicted: set<Key>)
    requires Increasing(h) && CacheInv(w, h, cache) && InCache(c) && InCacheInv(w, h, cache, c) && LockFits(cache, call, c)
    ensures CacheInv(w, h, NextCache(h[|h| - 1], cache, call, c, evicted))
    ensures Keeps(h, NextCache(h[|h| - 1], cache, call, c, evicted), cache)
  {
    KeepsItself(h, cache);
    EmptiedBefore(w, h, cache);
    if c.at.Writing? {
      var o := Origin(c.at.seqNo, c.data);
      assert Sourced(w, h, c.channel, c.at.key, c.at.verdict, o) && cache.last <= o.seqNo;
      FilledCache(w, h, cache, c.at.key, c.at.verdict, o);
      FilledKeeps(h, cache, c.at.key, c.at.verdict, o);
    } else if c.at.Changing? {
      EmptiedCache(w, h, cache, c.at.read);
    } else if c.at.Purging? {
      WithoutCache(w, h, cache, evicted);
    } else if c.at.Storing? && c.at.read == h[|h| - 1] {
      LockedCache(w, h, cache, Lock(call, c.at.read));
    }
    hide CacheInv, Increasing, Keeps, Sourced, InCacheInv;
  }

  lemma LockedCache(w: World, h: seq<nat>, c: Cache, lock: Lock)
    requires h != [] && CacheInv(w, h, c) && lock.seqNo == h[|h| - 1] && c.last <= lock.seqNo
    ensures CacheInv(w, h, c.(lock := Some(lock))) && Keeps(h, c.(lock := Some(lock)), c)
  {
  }

  lemma KeepsItself(h: seq<nat>, c: Cache)
    requires h != []
    ensures Keeps(h, c, c)
  {
  }

  lemma HitInv(w: World, h: seq<nat>, cache: Cache, c: Call)
    requires CacheInv(w, h, cache) && c.at.LookingUp? && InCacheInv(w, h, cache, c) && c.at.key in cache.entries
    ensures OutcomeInv(w, h, c, Answer(cache.entries[c.at.key], c.at.read, OriginOf(cache, c.at.key)))
  {
    assert c.at.key in cache.origins;
  }

  lemma SameOutcome(w: World, h: seq<nat>, c: Call, at: Position, outcome: Outcome)
    requires OutcomeInv(w, h, c, outcome)
    ensures OutcomeInv(w, h, c.(at := at), outcome)
  {
  }

  lemma ValidCacheIsFresh(w: World, h: seq<nat>, cache: Cache)
    requires CacheInv(w, h, cache)
    ensures AllSince(cache, cache.last)
  {
  }

  lemma NextAtInv(w: World, h: seq<nat>, cache: Cache, cache': Cache, call: nat, c: Call, evicted: set<Key>)
    requires Increasing(h) && CacheInv(w, h, cache) && InCache(c) && InCacheInv(w, h, cache, c) && c.start in h
    requires LockFits(cache, call, c) && cache' == NextCache(h[|h| - 1], cache, call, c, evicted)
    ensures var at := NextAt(w, h[|h| - 1], cache, c);
      if at.Returned? then OutcomeInv(w, h, c.(at := at), at.outcome)
      else InCache(c.(at := at)) && at.id == c.at.id && InCacheInv(w, h, cache', c.(at := at))
  {
    if c.at.LookingUp? {
      LookUpInv(w, h, cache, c);
    } else if c.at.Storing? || c.at.Writing? {
      StoreAtInv(w, h, cache, cache', call, c, evicted);
    } else {
      EarlyAtInv(w, h, cache, cache', call, c, evicted);
    }
    hide *;
  }

  lemma LookUpInv(w: World, h: seq<nat>, cache: Cache, c: Call)
    requires h != [] && CacheInv(w, h, cache) && c.at.LookingUp? && InCacheInv(w, h, cache, c)
    ensures var at := NextAt(w, h[|h| - 1], cache, c);
      if at.Returned? then OutcomeInv(w, h, c.(at := at), at.outcome)
      else InCache(c.(at := at)) && at.id == c.at.id && InCacheInv(w, h, cache, c.(at := at))
  {
    if c.at.key in cache.entries {
      var at := NextAt(w, h[|h| - 1], cache, c);
      HitInv(w, h, cache, c);
      hide CacheInv, InCacheInv, OutcomeInv;
      SameOutcome(w, h, c, at, at.outcome);
    } else {
      hide CacheInv, AllSince;
    }
  }

  lemma StoreAtInv(w: World, h: seq<nat>, cache: Cache, cache': Cache, call: nat, c: Call, evicted: set<Key>)
    requires Increasing(h) && (c.at.Storing? || c.at.Writing?) && InCacheInv(w, h, cache, c)
    requires cache' == NextCache(h[|h| - 1], cache, call, c, evicted)
    ensures var at := NextAt(w, h[|h| - 1], cache, c);
      if at.Returned? then OutcomeInv(w, h, c.(at := at), at.outcome)
      else InCache(c.(at := at)) && at.id == c.at.id && InCacheInv(w, h, cache', c.(at := at))
  {
    LastIsLargest(h, c.at.seqNo);
    hide Increasing, AllSince;
  }

  lemma EarlyAtInv(w: World, h: seq<nat>, cache: Cache, cache': Cache, call: nat, c: Call, evicted: set<Key>)
    requires Increasing(h) && CacheInv(w, h, cache) && InCache(c) && InCacheInv(w, h, cache, c) && c.start in h
    requires !c.at.LookingUp? && !c.at.Storing? && !c.at.Writing?
    requires LockFits(cache, call, c) && cache' == NextCache(h[|h| - 1], cache, call, c, evicted)
    ensures var at := NextAt(w, h[|h| - 1], cache, c);
      if at.Returned? then OutcomeInv(w, h, c.(at := at), at.outcome)
      else InCache(c.(at := at)) && at.id == c.at.id && InCacheInv(w, h, cache', c.(at := at))
  {
    LastIsLargest(h, c.start);
    if !c.at.Holding? {
      LastIsLargest(h, c.at.read);
    }
    ValidCacheIsFresh(w, h, cache);
    hide Increasing, CacheInv, AllSince;
  }

  /** Taking the lock, writing and releasing it keep holder and cache in step; nothing else touches them. */
  lemma LocksMove(calls: map<nat, Call>, caches: map<nat, Cache>, call: nat, id: nat, at: Position, c: Cache)
    requires LocksInv(calls, caches) && call in calls && id in caches && InCache(calls[call]) && calls[call].at.id == id
    requires LockFits(caches[id], call, calls[call])
    requires if at.Writing? then at.id == id && c.lock == Some(Lock(call, at.read)) && NeedsLock(calls[call]) && !calls[call].at.Writing?
             else if calls[call].at.Writing? then c.lock.None? else c.lock == caches[id].lock
    ensures LocksInv(calls[call := calls[call].(at := at)], caches[id := c])
  {
  }

  lemma LockMoves(w: World, now: nat, cache: Cache, call: nat, c: Call, evicted: set<Key>)
    requires InCache(c)
    ensures var at, cache' := NextAt(w, now, cache, c), NextCache(now, cache, call, c, evicted);
      if at.Writing? then at.id == c.at.id && cache'.lock == Some(Lock(call, at.read)) && NeedsLock(c) && !c.at.Writing?
      else if c.at.Writing? then cache'.lock.None? else cache'.lock == cache.lock
  {
  }

  lemma InCacheStepInv(w: World, s: State, call: nat, evicted: set<Key>)
    requires Inv(w, s) && call in s.calls && InCache(s.calls[call]) && s.calls[call].at.id in s.caches
    requires NeedsLock(s.calls[call]) ==> Available(s.caches[s.calls[call].at.id], call)
    ensures Inv(w, Advanced(w, s, call, evicted))
  {
    hide Inv, CacheInv, InCacheInv, OutcomeInv, Keeps, History, Increasing, NextCache, NextAt, LocksInv, LockFits, CallsInv, CachesInv;
    var c := s.calls[call];
    CallOf(w, s, call);
    CacheOf(w, s, c.at.id);
    SameChannel(w, s, call);
    LockOf(w, s, call);
    var h, cache := History(s, c.channel), s.caches[c.at.id];
    var cache' := NextCache(h[|h| - 1], cache, call, c, evicted);
    var at := NextAt(w, h[|h| - 1], cache, c);
    NextCacheInv(w, h, cache, call, c, evicted);
    NextAtInv(w, h, cache, cache', call, c, evicted);
    LockMoves(w, h[|h| - 1], cache, call, c, evicted);
    BothChange(w, s, call, c.at.id, at, cache');
  }

  /** A cache changes, and the call that changes it moves on. */
  lemma BothChange(w: World, s: State, call: nat, id: nat, at: Position, c: Cache)
    requires Inv(w, s) && call in s.calls && InCache(s.calls[call]) && s.calls[call].at.id == id && id in s.caches
    requires s.caches[id].channel == s.calls[call].channel
    requires CacheInv(w, History(s, s.calls[call].channel), c) && Keeps(History(s, s.calls[call].channel), c, s.caches[id])
    requires CallInv(w, History(s, s.calls[call].channel), s.caches[id := c], s.calls[call].(at := at))
    requires LockFits(s.caches[id], call, s.calls[call])
    requires if at.Writing? then at.id == id && c.lock == Some(Lock(call, at.read)) && NeedsLock(s.calls[call]) && !s.calls[call].at.Writing?
             else if s.calls[call].at.Writing? then c.lock.None? else c.lock == s.caches[id].lock
    ensures Inv(w, Moved(s.(caches := s.caches[id := c]), call, at))
  {
    var s1 := s.(caches := s.caches[id := c]);
    KeepsChannel(History(s, s.calls[call].channel), c, s.caches[id]);
    CallsStay(w, s, id, c);
    hide CallInv, CacheInv, History, Increasing, Keeps, LockFits, LocksInv, CachesInv, CallsInv;
    CachesChanged(w, s, id, c);
    LocksMove(s.calls, s.caches, call, id, at, c);
    SameHistory(s, s1);
    CallsMove(w, s1, call, at);
    SameHistory(s, Moved(s1, call, at));
    SameCaches(w, s1, Moved(s1, call, at));
  }

  lemma SameCaches(w: World, s: State, s': State)
    requires CachesInv(w, s) && s' == s.(calls := s'.calls)
    ensures CachesInv(w, s')
  {
    hide CacheInv, History;
    SameHistory(s, s');
  }

  lemma KeepsChannel(h: seq<nat>, c: Cache, d: Cache)
    requires Keeps(h, c, d)
    ensures c.channel == d.channel
  {
  }

  lemma SameChannel(w: World, s: State, call: nat)
    requires Inv(w, s) && call in s.calls && InCache(s.calls[call])
    ensures s.calls[call].at.id in s.caches && s.caches[s.calls[call].at.id].channel == s.calls[call].channel
  {
    CallOf(w, s, call);
  }

  lemma EnteredInv(w: World, s: State, call: nat)
    requires Inv(w, s) && call in s.calls && s.calls[call].at.Entered?
    ensures Inv(w, Advanced(w, s, call, {}))
  {
    var c := s.calls[call];
    CallOf(w, s, call);
    RoutedInv(w, History(s, c.channel), s.caches, s.registry, c);
    hide Inv, History, Increasing, CallInv, Routed;
    MovedInv(w, s, call, Routed(w, s.registry, Current(s, c.channel), c));
  }

  lemma CallKept(w: World, h: seq<nat>, caches: map<nat, Cache>, caches': map<nat, Cache>, c: Call)
    requires CallInv(w, h, caches, c) && forall id :: id in caches ==> id in caches' && caches'[id] == caches[id]
    ensures CallInv(w, h, caches', c)
  {
    hide InCacheInv, OutcomeInv;
  }

  lemma CreatedCaches(w: World, s: State, channel: Channel)
    requires CachesInv(w, s)
    ensures CachesInv(w, Created(s, channel))
  {
    var s' := Created(s, channel);
    SameHistory(s, s');
    assert CacheInv(w, History(s, channel), Cache(channel, 0, map[], map[], None));
    hide CacheInv, History;
  }

  lemma CreatedCalls(w: World, s: State, channel: Channel)
    requires CachesInv(w, s) && CallsInv(w, s)
    ensures CallsInv(w, Created(s, channel))
  {
    var s' := Created(s, channel);
    SameHistory(s, s');
    hide CacheInv, History, CallInv;
    forall call | call in s'.calls
      ensures CallInv(w, History(s', s'.calls[call].channel), s'.caches, s'.calls[call])
    {
      CallKept(w, History(s, s.calls[call].channel), s.caches, s'.caches, s.calls[call]);
    }
  }

  lemma CreatedLocks(w: World, s: State, channel: Channel)
    requires CachesInv(w, s) && CallsInv(w, s) && LocksInv(s.calls, s.caches)
    ensures LocksInv(Created(s, channel).calls, Created(s, channel).caches)
  {
    hide CacheInv, History, OutcomeInv, InCacheInv;
  }

  lemma CreatedInv(w: World, s: State, channel: Channel)
    requires Inv(w, s)
    ensures Inv(w, Created(s, channel))
  {
    hide CachesInv, CallsInv, History, Increasing, LocksInv;
    CreatedCaches(w, s, channel);
    CreatedCalls(w, s, channel);
    CreatedLocks(w, s, channel);
    SameHistory(s, Created(s, channel));
  }

  lemma MissingInv(w: World, s: State, call: nat)
    requires Inv(w, s) && call in s.calls && s.calls[call].at.Missing?
    ensures Inv(w, Advanced(w, s, call, {}))
  {
    hide Inv, History, Increasing, InCacheInv, OutcomeInv;
    var c := s.calls[call];
    var s1 := Created(s, c.channel);
    CreatedInv(w, s, c.channel);
    CallOf(w, s1, call);
    HoldingInv(w, History(s1, c.channel), s1.caches[s.next], c.(at := Holding(s.next)));
    MovedInv(w, s1, call, Holding(s.next));
  }

  lemma HoldingInv(w: World, h: seq<nat>, cache: Cache, c: Call)
    requires c.at.Holding? && cache.channel == c.channel && c.data in w.submitted
    ensures InCacheInv(w, h, cache, c)
  {
  }

  /** More sequences in a channel's history. */
  lemma LongerHistory(w: World, h: seq<nat>, seqNo: nat, caches: map<nat, Cache>, c: Call)
    requires CallInv(w, h, caches, c)
    ensures CallInv(w, h + [seqNo], caches, c)
  {
  }

  lemma LongerHistoryCache(w: World, h: seq<nat>, seqNo: nat, c: Cache)
    requires CacheInv(w, h, c)
    ensures CacheInv(w, h + [seqNo], c)
  {
  }

  lemma HistoryAfter(s: State, channel: Channel, seqNo: nat)
    ensures var s' := s.(history := s.history[channel := History(s, channel) + [seqNo]]);
      forall ch :: History(s', ch) == if ch == channel then History(s, ch) + [seqNo] else History(s, ch)
  {
  }

  lemma IncreasingAppend(h: seq<nat>, seqNo: nat)
    requires Increasing(h) && seqNo > h[|h| - 1]
    ensures Increasing(h + [seqNo])
  {
    forall x | x in h ensures x < seqNo {
      LastIsLargest(h, x);
    }
  }

  lemma ReconfigureInv(w: World, s: State, channel: Channel, seqNo: nat)
    requires Inv(w, s) && seqNo > Current(s, channel)
    ensures Inv(w, s.(history := s.history[channel := History(s, channel) + [seqNo]]))
  {
    var s' := s.(history := s.history[channel := History(s, channel) + [seqNo]]);
    hide CacheInv, CallInv, History, Increasing;
    IncreasingAppend(History(s, channel), seqNo);
    HistoryAfter(s, channel, seqNo);
    assert CachesInv(w, s') by {
      forall id | id in s'.caches ensures CacheInv(w, History(s', s'.caches[id].channel), s'.caches[id]) {
        LongerHistoryCache(w, History(s, s.caches[id].channel), seqNo, s.caches[id]);
      }
    }
    assert CallsInv(w, s') by {
      forall call | call in s'.calls
        ensures CallInv(w, History(s', s'.calls[call].channel), s'.caches, s'.calls[call])
      {
        LongerHistory(w, History(s, s.calls[call].channel), seqNo, s.caches, s.calls[call]);
      }
    }
    hide CachesInv, CallsInv;
  }

  lemma EnterInv(w: World, s: State, call: nat, channel: Channel, data: SignedData)
    requires Inv(w, s) && call !in s.calls && data in w.submitted
    ensures Inv(w, s.(calls := s.calls[call := Call(channel, data, Current(s, channel), Entered)]))
  {
    var c := Call(channel, data, Current(s, channel), Entered);
    var s' := s.(calls := s.calls[call := c]);
    assert CallInv(w, History(s, channel), s.caches, c);
    EnteredCalls(w, s, call, c);
    EnteredLocks(s.calls, s.caches, call, c);
    hide History, Increasing, CachesInv, CallsInv, LocksInv;
    SameHistory(s, s');
    SameCaches(w, s, s');
  }

  lemma EnteredCalls(w: World, s: State, call: nat, c: Call)
    requires CallsInv(w, s) && CallInv(w, History(s, c.channel), s.caches, c)
    ensures CallsInv(w, s.(calls := s.calls[call := c]))
  {
    hide CallInv, History;
    SameHistory(s, s.(calls := s.calls[call := c]));
  }

  lemma EnteredLocks(calls: map<nat, Call>, caches: map<nat, Cache>, call: nat, c: Call)
    requires LocksInv(calls, caches) && call !in calls && c.at.Entered?
    ensures LocksInv(calls[call := c], caches)
  {
  }

  lemma StepInv(w: World, s: State, step: Step)
    requires Inv(w, s) && Enabled(w, s, step)
    ensures Inv(w, Apply(w, s, step))
  {
    hide Inv, History;
    match step
    case Reconfigure(channel, seqNo) => ReconfigureInv(w, s, channel, seqNo);
    case Enter(call, channel, data) => EnterInv(w, s, call, channel, data);
    case Advance(call, evicted) =>
      if s.calls[call].at.Entered? {
        EnteredInv(w, s, call);
      } else if s.calls[call].at.Missing? {
        MissingInv(w, s, call);
      } else {
        InCacheStepInv(w, s, call, evicted);
      }
  }

  lemma {:induction false} RunInv(w: World, s: State, steps: seq<Step>)
    requires Inv(w, s) && Run(w, s, steps)
    ensures Inv(w, Exec(w, s, steps))
    decreases |steps|
  {
    if steps != [] {
      StepInv(w, s, steps[0]);
      RunInv(w, Apply(w, s, steps[0]), steps[1..]);
    }
  }

  // -------------------------------------------------------------------------
  // What callers are told
  // -------------------------------------------------------------------------

  /** No two of the data submitted share a key. */
  ghost predicate NoCollisions(w: World) {
    forall d, e :: d in w.submitted && e in w.submitted && w.keyOf(d).Some? && w.keyOf(d) == w.keyOf(e) ==> d == e
  }

  /** What a call that has returned was told, up to data with the same key. */
  lemma ReturnedOutcome(w: World, s: State, steps: seq<Step>, call: nat)
    requires Init(s) && Run(w, s, steps)
    requires var t := Exec(w, s, steps); call in t.calls && t.calls[call].at.Returned?
    ensures var t := Exec(w, s, steps);
      && OutcomeInv(w, History(t, t.calls[call].channel), t.calls[call], t.calls[call].at.outcome)
      && Increasing(History(t, t.calls[call].channel)) && t.calls[call].start in History(t, t.calls[call].channel)
  {
    var t := Exec(w, s, steps);
    assert Inv(w, s);
    RunInv(w, s, steps);
    CallOf(w, t, call);
  }

  /**
   Under every interleaving, the verdict a call returns is that of the uncached check under a configuration
   sequence the channel had during the call, at least as new as the one the call read.
   */
  lemma Freshness(w: World, s: State, steps: seq<Step>, call: nat)
    requires NoCollisions(w) && Init(s) && Run(w, s, steps)
    requires var t := Exec(w, s, steps); call in t.calls && t.calls[call].at.Returned?
    ensures var t := Exec(w, s, steps);
      var c := t.calls[call];
      match c.at.outcome
      case KeyError => w.keyOf(c.data).None?
      case Answer(verdict, read, origin) =>
        && c.start <= read <= origin.seqNo && origin.seqNo in History(t, c.channel)
        && verdict == w.eligible(c.channel, origin.seqNo, c.data)
  {
    ReturnedOutcome(w, s, steps, call);
  }

  /** If the configuration did not change during the call, the answer is that of the uncached check. */
  lemma StableAnswer(w: World, s: State, steps: seq<Step>, call: nat)
    requires NoCollisions(w) && Init(s) && Run(w, s, steps)
    requires var t := Exec(w, s, steps);
      && call in t.calls && t.calls[call].at.Returned? && t.calls[call].at.outcome.Answer?
      && Current(t, t.calls[call].channel) == t.calls[call].start
    ensures var t := Exec(w, s, steps);
      var c := t.calls[call];
      c.at.outcome.verdict == w.eligible(c.channel, Current(t, c.channel), c.data)
  {
    var t := Exec(w, s, steps);
    var c := t.calls[call];
    Freshness(w, s, steps, call);
    ReturnedOutcome(w, s, steps, call);
    LastIsLargest(History(t, c.channel), c.at.outcome.origin.seqNo);
  }

  lemma {:induction false} SubsetOfSize(keys: set<Key>, n: nat) returns (r: set<Key>)
    requires n <= |keys|
    ensures r <= keys && |r| == n
    decreases n
  {
    if n == 0 {
      r := {};
    } else {
      var k :| k in keys;
      var rest := SubsetOfSize(keys - {k}, n - 1);
      r := rest + {k};
    }
  }

  /**
   No call ever gets stuck: until it returns, its next critical section can run, or another call holds the lock
   that it needs and that one can run.
   */
  lemma Progress(w: World, s: State, steps: seq<Step>, call: nat) returns (who: nat, evicted: set<Key>)
    requires Init(s) && Run(w, s, steps)
    requires var t := Exec(w, s, steps); call in t.calls && !t.calls[call].at.Returned?
    ensures var t := Exec(w, s, steps);
      && Enabled(w, t, Advance(who, evicted))
      && (who != call ==>
            && NeedsLock(t.calls[call]) && t.calls[call].at.id in t.caches && t.caches[t.calls[call].at.id].lock.Some?
            && t.caches[t.calls[call].at.id].lock.value.holder == who && t.calls[who].at.Writing?)
  {
    var t := Exec(w, s, steps);
    assert Inv(w, s);
    RunInv(w, s, steps);
    hide Init, Run, Exec;
    who, evicted := CanGoOn(w, t, call);
  }

  lemma CanGoOn(w: World, s: State, call: nat) returns (who: nat, evicted: set<Key>)
    requires Inv(w, s) && call in s.calls && !s.calls[call].at.Returned?
    ensures Enabled(w, s, Advance(who, evicted))
    ensures who != call ==>
              && NeedsLock(s.calls[call]) && s.calls[call].at.id in s.caches && s.caches[s.calls[call].at.id].lock.Some?
              && s.caches[s.calls[call].at.id].lock.value.holder == who && s.calls[who].at.Writing?
  {
    hide Inv, History, Increasing, InCacheInv, OutcomeInv, Evicts;
    CallOf(w, s, call);
    who, evicted := call, {};
    var c := s.calls[call];
    if InCache(c) {
      assert c.at.id in s.caches;
      var cache := s.caches[c.at.id];
      if NeedsLock(c) && !Available(cache, call) {
        who := cache.lock.value.holder;
        HolderWrites(w, s, c.at.id);
      } else if c.at.Purging? {
        evicted := Evictable(cache, w.evictions);
      }
    }
  }

  lemma HolderWrites(w: World, s: State, id: nat)
    requires Inv(w, s) && id in s.caches && s.caches[id].lock.Some?
    ensures var who := s.caches[id].lock.value.holder; who in s.calls && s.calls[who].at.Writing? && s.calls[who].at.id == id
  {
    hide CachesInv, CallsInv, History, Increasing;
  }

  lemma Evictable(c: Cache, evictions: int) returns (evicted: set<Key>)
    ensures Evicts(c, evictions, evicted)
  {
    assert |c.entries.Keys| == |c.entries|;
    if evictions < 0 || |c.entries| <= evictions {
      evicted := c.entries.Keys;
    } else {
      evicted := SubsetOfSize(c.entries.Keys, evictions);
    }
  }

  /**
   A purge makes room for one more entry in a full or overgrown cache exactly when it evicts everything or more than
   the cache has grown beyond its limit.
   */
  lemma PurgeMakesRoom(c: Cache, maxSize: nat, evictions: int, evicted: set<Key>)
    requires |c.entries| >= maxSize > 0 && Evicts(c, evictions, evicted)
    ensures |Without(c, evicted).entries| + 1 <= maxSize <==> evictions < 0 || evictions > |c.entries| - maxSize
  {
    var rest := c.entries - evicted;
    assert rest.Keys == c.entries.Keys - evicted;
    assert |rest| == |rest.Keys| && |c.entries| == |c.entries.Keys|;
    assert c.entries.Keys == rest.Keys + evicted;
  }
}
