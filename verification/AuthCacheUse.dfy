/** What the authorisation cache is for: repeated requests are answered from it, and it does not grow without end. */
module AuthCacheUse {
  import opened AuthCacheRuns
  import opened Wrappers

  // -------------------------------------------------------------------------
  // Hits
  // -------------------------------------------------------------------------

  lemma Prepend(w: World, s: State, step: Step, rest: seq<Step>)
    requires Enabled(w, s, step) && Run(w, Apply(w, s, step), rest)
    ensures Run(w, s, [step] + rest) && Exec(w, s, [step] + rest) == Exec(w, Apply(w, s, step), rest)
  {
    assert ([step] + rest)[1..] == rest;
  }

  /** The cache holds a verdict for the request under the current configuration, and nobody is writing. */
  predicate Held(w: World, s: State, id: nat, channel: Channel, data: SignedData) {
    && w.enabled && w.keyOf(data).Some?
    && channel in s.registry && s.registry[channel] == id && id in s.caches
    && s.caches[id].lock.None? && s.caches[id].last == Current(s, channel)
    && w.keyOf(data).value in s.caches[id].entries
  }

  lemma Enters(w: World, s: State, call: nat, id: nat)
    requires call in s.calls && s.calls[call].at == Entered && Held(w, s, id, s.calls[call].channel, s.calls[call].data)
    ensures Enabled(w, s, Advance(call, {})) && Apply(w, s, Advance(call, {})) == Moved(s, call, Holding(id))
  {
  }

  lemma Reads(w: World, s: State, call: nat, id: nat)
    requires call in s.calls && s.calls[call].at == Holding(id) && Held(w, s, id, s.calls[call].channel, s.calls[call].data)
    ensures var c := s.calls[call];
            && Enabled(w, s, Advance(call, {}))
            && Apply(w, s, Advance(call, {})) == Moved(s, call, Checking(id, w.keyOf(c.data).value, Current(s, c.channel)))
  {
    assert s.caches[id := s.caches[id]] == s.caches;
  }

  lemma Finds(w: World, s: State, call: nat, id: nat)
    requires call in s.calls && Held(w, s, id, s.calls[call].channel, s.calls[call].data)
    requires var c := s.calls[call]; c.at == Checking(id, w.keyOf(c.data).value, Current(s, c.channel))
    ensures var c := s.calls[call];
            && Enabled(w, s, Advance(call, {}))
            && Apply(w, s, Advance(call, {})) == Moved(s, call, LookingUp(id, c.at.key, c.at.read))
  {
    assert s.caches[id := s.caches[id]] == s.caches;
  }

  lemma Returns(w: World, s: State, call: nat, id: nat)
    requires call in s.calls && Held(w, s, id, s.calls[call].channel, s.calls[call].data)
    requires var c := s.calls[call]; c.at == LookingUp(id, w.keyOf(c.data).value, Current(s, c.channel))
    ensures var c, cache := s.calls[call], s.caches[id];
            && Enabled(w, s, Advance(call, {}))
            && Apply(w, s, Advance(call, {}))
               == Moved(s, call, Returned(Answer(cache.entries[c.at.key], c.at.read, OriginOf(cache, c.at.key))))
  {
    assert s.caches[id := s.caches[id]] == s.caches;
  }

  /** A call that finds a verdict returns it after four critical sections, none of which is the check. */
  lemma Hit(w: World, s: State, call: nat, id: nat)
    requires call in s.calls && s.calls[call].at.Entered? && Held(w, s, id, s.calls[call].channel, s.calls[call].data)
    ensures var go := Advance(call, {});
            var c, cache := s.calls[call], s.caches[id];
            var key := w.keyOf(c.data).value;
            && Run(w, s, [go, go, go, go])
            && Exec(w, s, [go, go, go, go])
               == Moved(s, call, Returned(Answer(cache.entries[key], Current(s, c.channel), OriginOf(cache, key))))
  {
    var go := Advance(call, {});
    var c, cache := s.calls[call], s.caches[id];
    var key, now := w.keyOf(c.data).value, Current(s, c.channel);
    var answer := Returned(Answer(cache.entries[key], now, OriginOf(cache, key)));
    hide *;
    MovedOn(w, s, call, id, Holding(id), Checking(id, key, now));
    MovedOn(w, s, call, id, Checking(id, key, now), LookingUp(id, key, now));
    MovedOn(w, s, call, id, LookingUp(id, key, now), answer);
    var s1, s2 := Moved(s, call, Holding(id)), Moved(s, call, Checking(id, key, now));
    var s3, s4 := Moved(s, call, LookingUp(id, key, now)), Moved(s, call, answer);
    Enters(w, s, call, id);
    Reads(w, s1, call, id);
    Finds(w, s2, call, id);
    Returns(w, s3, call, id);
    NoSteps(w, s4);
    Prepend(w, s3, go, []);
    Prepend(w, s2, go, [go]);
    Prepend(w, s1, go, [go, go]);
    Prepend(w, s, go, [go, go, go]);
    assert [go] + [] == [go] && [go] + [go] == [go, go] && [go] + [go, go] == [go, go, go];
    assert [go] + [go, go, go] == [go, go, go, go];
  }

  lemma NoSteps(w: World, s: State)
    ensures Run(w, s, []) && Exec(w, s, []) == s
  {
  }

  lemma MovedKeeps(s: State, call: nat, at: Position, next: Position)
    requires call in s.calls
    ensures var t := Moved(s, call, at);
            && call in t.calls && t.calls[call] == s.calls[call].(at := at) && t.caches == s.caches
            && Current(t, s.calls[call].channel) == Current(s, s.calls[call].channel)
            && Moved(t, call, next) == Moved(s, call, next)
  {
  }

  /** Moving a call leaves everything that the hit depends on as it was. */
  lemma MovedOn(w: World, s: State, call: nat, id: nat, at: Position, next: Position)
    requires call in s.calls && Held(w, s, id, s.calls[call].channel, s.calls[call].data)
    ensures var t := Moved(s, call, at);
            && call in t.calls && t.calls[call] == s.calls[call].(at := at) && t.caches == s.caches
            && Current(t, s.calls[call].channel) == Current(s, s.calls[call].channel)
            && Held(w, t, id, s.calls[call].channel, s.calls[call].data)
            && Moved(t, call, next) == Moved(s, call, next)
  {
  }

  /** Once a call has written its verdict, the same request gets that verdict without a new check. */
  lemma SecondCallHits(w: World, s: State, first: nat, second: nat)
    requires w.enabled && first in s.calls && s.calls[first].at.Writing? && second !in s.calls
    requires var c := s.calls[first];
      && c.data in w.submitted && w.keyOf(c.data) == Some(c.at.key)
      && c.channel in s.registry && s.registry[c.channel] == c.at.id && c.at.id in s.caches
      && Available(s.caches[c.at.id], first) && s.caches[c.at.id].last == c.at.read == Current(s, c.channel)
    ensures var c, go := s.calls[first], Advance(second, {});
            var steps := [Advance(first, {})] + ([Enter(second, c.channel, c.data)] + [go, go, go, go]);
            && Run(w, s, steps)
            && second in Exec(w, s, steps).calls
            && Exec(w, s, steps).calls[second].at == Returned(Answer(c.at.verdict, c.at.read, Origin(c.at.seqNo, c.data)))
  {
    var c, go := s.calls[first], Advance(second, {});
    var s1 := Apply(w, s, Advance(first, {}));
    var s2 := Apply(w, s1, Enter(second, c.channel, c.data));
    Hit(w, s2, second, c.at.id);
    hide Run, Exec;
    Prepend(w, s1, Enter(second, c.channel, c.data), [go, go, go, go]);
    Prepend(w, s, Advance(first, {}), [Enter(second, c.channel, c.data)] + [go, go, go, go]);
  }

  // -------------------------------------------------------------------------
  // Size
  // -------------------------------------------------------------------------

  /** The call is past the size check and may still add an entry. */
  predicate Past(c: Call) {
    c.at.Computing? || c.at.Storing? || c.at.Writing?
  }

  ghost function Pending(calls: map<nat, Call>, id: nat): set<nat> {
    set call | call in calls && Past(calls[call]) && calls[call].at.id == id
  }

  /** At most k calls at once are past the size check of any one cache. */
  ghost predicate Within(s: State, k: nat) {
    forall id :: id in s.caches ==> |Pending(s.calls, id)| <= k
  }

  ghost predicate WithinRun(w: World, s: State, steps: seq<Step>, k: nat)
    requires Run(w, s, steps)
    decreases |steps|
  {
    Within(s, k) && (steps != [] ==> WithinRun(w, Apply(w, s, steps[0]), steps[1..], k))
  }

  /** How many entries a cache may have without the concurrent calls. */
  function Room(w: World): nat {
    if w.maxSize > 0 then w.maxSize - 1 else 0
  }

  ghost predicate SizeInv(w: World, s: State, k: nat) {
    && Within(s, k)
    && forall id :: id in s.caches ==> Fits(w, s, k, id)
  }

  function Weight(c: Call): nat {
    if Past(c) then 1 else 0
  }

  /** One critical section trades entries for pending calls. */
  lemma Trade(w: World, now: nat, cache: Cache, call: nat, c: Call, evicted: set<Key>, p: nat, p': nat, k: nat)
    requires w.evictions != 0 && InCache(c) && (c.at.Purging? ==> Evicts(cache, w.evictions, evicted))
    requires p' == p - Weight(c) + Weight(c.(at := NextAt(w, now, cache, c))) && p' <= k
    requires |cache.entries| + p <= Room(w) + k
    ensures |NextCache(now, cache, call, c, evicted).entries| + p' <= Room(w) + k
  {
    match c.at
    case Purging(_, _, _) => Evicted(cache, evicted);
    case Writing(_, key, _, verdict, _) => OneEntryMore(cache.entries, key, verdict);
    case _ =>
  }

  lemma Evicted(cache: Cache, evicted: set<Key>)
    requires evicted <= cache.entries.Keys
    ensures |(cache.entries - evicted)| == |cache.entries| - |evicted|
  {
    var rest := cache.entries - evicted;
    assert rest.Keys == cache.entries.Keys - evicted;
    assert |rest| == |rest.Keys| && |cache.entries| == |cache.entries.Keys|;
  }

  lemma OneEntryMore(entries: map<Key, Verdict>, key: Key, verdict: Verdict)
    ensures |entries[key := verdict]| <= |entries| + 1
  {
    var more := entries[key := verdict];
    assert more.Keys == entries.Keys + {key};
    assert |more| == |more.Keys| && |entries| == |entries.Keys|;
  }

  /** The pending calls when one call has moved, within its cache or not at all. */
  lemma PendingMoves(calls: map<nat, Call>, call: nat, c': Call, id: nat)
    requires call in calls && (Past(c') && Past(calls[call]) ==> c'.at.id == calls[call].at.id)
    ensures var was := if Past(calls[call]) && calls[call].at.id == id then 1 else 0;
            var now := if Past(c') && c'.at.id == id then 1 else 0;
            |Pending(calls[call := c'], id)| == |Pending(calls, id)| - was + now
  {
    var p, p' := Pending(calls, id), Pending(calls[call := c'], id);
    if Past(c') && c'.at.id == id {
      assert p' == p + {call};
    } else {
      assert p' == p - {call};
    }
  }

  ghost predicate Fits(w: World, s: State, k: nat, id: nat)
    requires id in s.caches
  {
    |s.caches[id].entries| + |Pending(s.calls, id)| <= Room(w) + k
  }

  /** A critical section keeps the balance of its own cache and touches no other. */
  lemma InCacheFits(w: World, s: State, call: nat, evicted: set<Key>, k: nat, id: nat)
    requires w.evictions != 0 && id in s.caches && Fits(w, s, k, id)
    requires call in s.calls && InCache(s.calls[call]) && s.calls[call].at.id in s.caches
    requires s.calls[call].at.Purging? ==> Evicts(s.caches[s.calls[call].at.id], w.evictions, evicted)
    requires |Pending(Advanced(w, s, call, evicted).calls, id)| <= k
    ensures id in Advanced(w, s, call, evicted).caches && Fits(w, Advanced(w, s, call, evicted), k, id)
  {
    var c := s.calls[call];
    var now, cache := Current(s, c.channel), s.caches[c.at.id];
    var at, next := NextAt(w, now, cache, c), NextCache(now, cache, call, c, evicted);
    var t := Advanced(w, s, call, evicted);
    assert t.calls == s.calls[call := c.(at := at)] && t.caches == s.caches[c.at.id := next];
    hide Advanced, Pending, Evicts, Room, Current, NextAt, NextCache;
    StaysInCache(w, now, cache, c);
    PendingMoves(s.calls, call, c.(at := at), id);
    if id == c.at.id {
      Trade(w, now, cache, call, c, evicted, |Pending(s.calls, id)|, |Pending(t.calls, id)|, k);
    }
  }

  lemma StaysInCache(w: World, now: nat, cache: Cache, c: Call)
    requires InCache(c)
    ensures var at := NextAt(w, now, cache, c); !at.Returned? ==> InCache(c.(at := at)) && at.id == c.at.id
  {
  }

  /** A call at the door, or one that creates a cache, is not past the check of any. */
  lemma DoorFits(w: World, s: State, call: nat, evicted: set<Key>, k: nat, id: nat)
    requires call in s.calls && (s.calls[call].at.Entered? || s.calls[call].at.Missing?)
    requires if id in s.caches then Fits(w, s, k, id) && id != s.next else id == s.next && Pending(s.calls, id) == {}
    requires id in Advanced(w, s, call, evicted).caches
    ensures Fits(w, Advanced(w, s, call, evicted), k, id)
  {
    var c, t := s.calls[call], Advanced(w, s, call, evicted);
    assert t.calls == s.calls[call := t.calls[call]] && !Past(t.calls[call]);
    assert if id in s.caches then t.caches[id] == s.caches[id] else t.caches[id].entries == map[];
    hide Advanced, Pending, Room;
    PendingMoves(s.calls, call, t.calls[call], id);
  }

  /** Caches are numbered from below, and calls are in caches that exist. */
  lemma Numbered(w: World, s: State)
    requires Inv(w, s)
    ensures s.next !in s.caches && Pending(s.calls, s.next) == {}
  {
    forall call | call in s.calls && Past(s.calls[call]) ensures s.calls[call].at.id != s.next {
      CallOf(w, s, call);
    }
  }

  lemma AdvanceSize(w: World, s: State, call: nat, evicted: set<Key>, k: nat)
    requires w.evictions != 0 && Inv(w, s) && SizeInv(w, s, k)
    requires Enabled(w, s, Advance(call, evicted)) && Within(Advanced(w, s, call, evicted), k)
    ensures SizeInv(w, Advanced(w, s, call, evicted), k)
  {
    Numbered(w, s);
    var t := Advanced(w, s, call, evicted);
    assert forall id :: id in t.caches ==> id in s.caches || (s.calls[call].at.Missing? && id == s.next);
    hide Inv, Advanced, Pending, Evicts, Room;
    forall id | id in t.caches ensures Fits(w, t, k, id) {
      assert |Pending(t.calls, id)| <= k;
      if InCache(s.calls[call]) {
        InCacheFits(w, s, call, evicted, k, id);
      } else {
        DoorFits(w, s, call, evicted, k, id);
      }
    }
  }

  lemma StepSize(w: World, s: State, step: Step, k: nat)
    requires w.evictions != 0 && Inv(w, s) && SizeInv(w, s, k) && Enabled(w, s, step) && Within(Apply(w, s, step), k)
    ensures SizeInv(w, Apply(w, s, step), k)
  {
    hide Inv, Advanced, Room;
    match step
    case Reconfigure(_, _) =>
    case Enter(call, channel, data) =>
      forall id ensures Pending(Apply(w, s, step).calls, id) == Pending(s.calls, id) {
      }
    case Advance(call, evicted) => AdvanceSize(w, s, call, evicted, k);
  }

  lemma {:induction false} RunSize(w: World, s: State, steps: seq<Step>, k: nat)
    requires w.evictions != 0 && Inv(w, s) && SizeInv(w, s, k) && Run(w, s, steps) && WithinRun(w, s, steps, k)
    ensures SizeInv(w, Exec(w, s, steps), k)
    decreases |steps|
  {
    if steps != [] {
      var t := Apply(w, s, steps[0]);
      assert Within(t, k);
      hide Inv, SizeInv, Apply, Within;
      StepInv(w, s, steps[0]);
      StepSize(w, s, steps[0], k);
      RunSize(w, t, steps[1..], k);
    }
  }

  /**
   Over every run in which at most k calls at once are past the size check, no cache outgrows its maximum by
   k entries or more, as long as a purge evicts anything at all.
   */
  lemma SizeBound(w: World, s: State, steps: seq<Step>, k: nat, id: nat)
    requires w.evictions != 0 && Init(s) && Run(w, s, steps) && WithinRun(w, s, steps, k)
    requires id in Exec(w, s, steps).caches
    ensures |Exec(w, s, steps).caches[id].entries| <= k + if w.maxSize > 0 then w.maxSize - 1 else 0
  {
    assert Inv(w, s);
    assert SizeInv(w, s, k);
    RunSize(w, s, steps, k);
  }

  /**
   When a purge evicts nothing there is no bound: however large the cache is, one more call, undisturbed,
   purges, checks and adds its entry.
   */
  lemma GrowsWithoutEviction(w: World, s: State, call: nat)
    requires w.evictions == 0 && call in s.calls && s.calls[call].at.Measuring?
    requires var c := s.calls[call];
      && c.at.id in s.caches && s.caches[c.at.id].lock.None? && c.at.read == Current(s, c.channel)
      && c.at.key !in s.caches[c.at.id].entries && |s.caches[c.at.id].entries| >= w.maxSize
    ensures var id, go := s.calls[call].at.id, Advance(call, {});
            && Run(w, s, [go, go, go, go, go])
            && id in Exec(w, s, [go, go, go, go, go]).caches
            && |Exec(w, s, [go, go, go, go, go]).caches[id].entries| == |s.caches[id].entries| + 1
  {
    var c, go := s.calls[call], Advance(call, {});
    var id, key, now := c.at.id, c.at.key, c.at.read;
    var cache, verdict := s.caches[id], w.eligible(c.channel, now, c.data);
    hide *;
    var s1, s2 := Moved(s, call, Purging(id, key, now)), Moved(s, call, Computing(id, key, now));
    var s3 := Moved(s, call, Storing(id, key, now, verdict, now));
    MovedKeeps(s, call, Computing(id, key, now), Storing(id, key, now, verdict, now));
    MovedKeeps(s, call, Storing(id, key, now, verdict, now), Entered);
    Purges(w, s, call);
    Checks(w, s2, call);
    Writes(w, s3, call);
    var s4 := Apply(w, s3, go);
    NoSteps(w, Apply(w, s4, go));
    Prepend(w, s4, go, []);
    Prepend(w, s3, go, [go]);
    Prepend(w, s2, go, [go, go]);
    Prepend(w, s1, go, [go, go, go]);
    Prepend(w, s, go, [go, go, go, go]);
    assert [go] + [] == [go] && [go] + [go] == [go, go] && [go] + [go, go] == [go, go, go];
    assert [go] + [go, go, go] == [go, go, go, go] && [go] + [go, go, go, go] == [go, go, go, go, go];
  }

  lemma Purges(w: World, s: State, call: nat)
    requires w.evictions == 0 && call in s.calls && s.calls[call].at.Measuring?
    requires s.calls[call].at.id in s.caches && s.caches[s.calls[call].at.id].lock.None?
    requires |s.caches[s.calls[call].at.id].entries| >= w.maxSize
    ensures var at, go := s.calls[call].at, Advance(call, {});
            var t := Moved(s, call, Purging(at.id, at.key, at.read));
            && Enabled(w, s, go) && Apply(w, s, go) == t
            && Enabled(w, t, go) && Apply(w, t, go) == Moved(s, call, Computing(at.id, at.key, at.read))
  {
    var id := s.calls[call].at.id;
    assert s.caches[id := s.caches[id]] == s.caches;
    assert Without(s.caches[id], {}) == s.caches[id];
  }

  lemma Checks(w: World, s: State, call: nat)
    requires call in s.calls && s.calls[call].at.Computing? && s.calls[call].at.id in s.caches
    requires s.calls[call].at.read == Current(s, s.calls[call].channel)
    ensures var c, go := s.calls[call], Advance(call, {});
            var verdict := w.eligible(c.channel, c.at.read, c.data);
            Enabled(w, s, go) && Apply(w, s, go) == Moved(s, call, Storing(c.at.id, c.at.key, c.at.read, verdict, c.at.read))
  {
    var id := s.calls[call].at.id;
    assert s.caches[id := s.caches[id]] == s.caches;
  }

  lemma NewEntry(entries: map<Key, Verdict>, key: Key, verdict: Verdict)
    requires key !in entries
    ensures |entries[key := verdict]| == |entries| + 1
  {
    var more := entries[key := verdict];
    assert more.Keys == entries.Keys + {key};
    assert |more| == |more.Keys| && |entries| == |entries.Keys|;
  }

  lemma Writes(w: World, s: State, call: nat)
    requires call in s.calls && s.calls[call].at.Storing? && s.calls[call].at.id in s.caches
    requires var c := s.calls[call];
      && s.caches[c.at.id].lock.None? && c.at.read == Current(s, c.channel) && c.at.key !in s.caches[c.at.id].entries
    ensures var id, go := s.calls[call].at.id, Advance(call, {});
            && Enabled(w, s, go) && Enabled(w, Apply(w, s, go), go)
            && var t := Apply(w, Apply(w, s, go), go);
               id in t.caches && |t.caches[id].entries| == |s.caches[id].entries| + 1
  {
    var c := s.calls[call];
    NewEntry(s.caches[c.at.id].entries, c.at.key, c.at.verdict);
  }
}
