/** One channel's authorisation cache: its critical sections as methods, and a call that nothing interrupts. */
module AccessCache {
  import opened AuthCacheRuns
  import opened Wrappers

  /** How many entries a purge evicts: the maximum less the retained part, which is cut towards zero. */
  function Evictions(maxSize: int, retention: real): int {
    var kept := retention * maxSize as real;
    maxSize - if kept >= 0.0 then kept.Floor else -((-kept).Floor)
  }

  /** A retention ratio from zero to one evicts between none and all, and some unless everything is retained. */
  lemma RetainedPart(maxSize: nat, retention: real)
    requires 0.0 <= retention <= 1.0
    ensures 0 <= Evictions(maxSize, retention) <= maxSize
    ensures maxSize > 0 ==> (Evictions(maxSize, retention) > 0 <==> retention < 1.0)
  {
    var m := maxSize as real;
    Scaled(retention, m);
    hide Evictions;
    Truncation(maxSize, retention);
  }

  /** A part of m is between nothing and m, and less than m exactly for a proper part. */
  lemma Scaled(r: real, m: real)
    requires 0.0 <= r <= 1.0 && m >= 0.0
    ensures 0.0 <= r * m <= m && (m > 0.0 ==> (r * m < m <==> r < 1.0))
  {
    var rest := 1.0 - r;
    assert m - r * m == rest * m;
    NonNegative(rest, m);
    NonNegative(r, m);
  }

  lemma NonNegative(a: real, b: real)
    requires a >= 0.0 && b >= 0.0
    ensures a * b >= 0.0 && (a > 0.0 && b > 0.0 ==> a * b > 0.0)
  {
  }

  lemma Truncation(maxSize: nat, retention: real)
    requires 0.0 <= retention * maxSize as real <= maxSize as real
    ensures 0 <= Evictions(maxSize, retention) <= maxSize
    ensures Evictions(maxSize, retention) > 0 <==> retention * maxSize as real < maxSize as real
  {
    var kept := retention * maxSize as real;
    assert kept.Floor <= maxSize && (kept.Floor < maxSize <==> kept < maxSize as real);
  }

  class AccessCache {
    const channel: Channel
    var lastSequence: nat
    var entries: map<Key, Verdict>
    ghost var origins: map<Key, Origin>

    ghost function Now(): Cache
      reads this
    {
      Cache(channel, lastSequence, entries, origins, None)
    }

    constructor (channel: Channel)
      ensures Now() == Cache(channel, 0, map[], map[], None)
    {
      this.channel := channel;
      lastSequence := 0;
      entries := map[];
      origins := map[];
    }

    method IsValid(currSeq: nat) returns (valid: bool)
      ensures valid <==> currSeq == Now().last
    {
      valid := currSeq == lastSequence;
    }

    method ConfigChange(currSeq: nat)
      modifies this
      ensures Now() == Emptied(old(Now()), currSeq)
    {
      lastSequence := currSeq;
      entries := map[];
      origins := map[];
    }

    method Lookup(key: Key) returns (hit: bool, verdict: Verdict)
      ensures hit <==> key in Now().entries
      ensures hit ==> verdict == Now().entries[key]
    {
      hit := key in entries;
      verdict := if hit then entries[key] else Eligible;
    }

    method IsPurgeNeeded(maxSize: int) returns (needed: bool)
      ensures needed <==> |Now().entries| + 1 > maxSize
    {
      needed := |entries| + 1 > maxSize;
    }

    /** Deletes entries in no particular order until enough are gone; a negative number never runs out. */
    method PurgeEntries(evictions: int) returns (ghost evicted: set<Key>)
      modifies this
      ensures Evicts(old(Now()), evictions, evicted) && Now() == Without(old(Now()), evicted)
    {
      hide *;
      var keys := entries.Keys;
      var left := evictions;
      evicted := {};
      ghost var before := Now();
      NowIs();
      PurgeStarts(before, evictions);
      while keys != {}
        invariant Evicting(before, evictions, keys, left, evicted)
        invariant Now() == Without(before, evicted)
      {
        if left == 0 {
          PurgeEnds(before, evictions, keys, left, evicted);
          return;
        }
        left := left - 1;
        var key :| key in keys;
        NowIs();
        EvictOne(before, evictions, keys, left + 1, evicted, key);
        keys := keys - {key};
        entries := entries - {key};
        origins := origins - {key};
        evicted := evicted + {key};
        NowIs();
      }
      PurgeEnds(before, evictions, keys, left, evicted);
    }

    lemma NowIs()
      ensures Now() == Cache(channel, lastSequence, entries, origins, None)
      ensures forall key :: Without(Now(), {key}) == Now().(entries := entries - {key}, origins := origins - {key})
    {
    }

    method Store(key: Key, verdict: Verdict, ghost origin: Origin)
      modifies this
      ensures Now() == Filled(old(Now()), key, verdict, origin)
    {
      entries := entries[key := verdict];
      origins := origins[key := origin];
    }

    /** A call during which the configuration stays at its current sequence answers as the check itself does. */
    method EligibleForService(data: SignedData, w: World, current: nat, ghost h: seq<nat>) returns (outcome: Option<Verdict>)
      requires Increasing(h) && h[|h| - 1] == current && CacheInv(w, h, Now())
      requires NoCollisions(w) && data in w.submitted
      modifies this
      ensures CacheInv(w, h, Now())
      ensures outcome == if w.keyOf(data).None? then None else Some(w.eligible(channel, current, data))
      ensures outcome.Some? ==> lastSequence == current && w.keyOf(data).value in entries
      ensures outcome.Some? ==> entries[w.keyOf(data).value] == outcome.value
      ensures outcome.None? ==> unchanged(this)
    {
      var key := w.keyOf(data);
      if key.None? {
        return None;
      }
      var valid := IsValid(current);
      if valid {
        var hit, verdict := Lookup(key.value);
        if hit {
          HitIsCurrent(w, h, Now(), key.value, data);
          return Some(verdict);
        }
      } else {
        ConfigChange(current);
        EmptiedCache(w, h, old(Now()), current);
      }
      assert CacheInv(w, h, Now());
      var needed := IsPurgeNeeded(w.maxSize);
      if needed {
        ghost var before := Now();
        ghost var evicted := PurgeEntries(w.evictions);
        WithoutCache(w, h, before, evicted);
      }
      var verdict := w.eligible(channel, current, data);
      EmptiedBefore(w, h, Now());
      FilledCache(w, h, Now(), key.value, verdict, Origin(current, data));
      Store(key.value, verdict, Origin(current, data));
      outcome := Some(verdict);
    }
  }

  /** An entry of a cache that is valid for the newest sequence was computed under that sequence. */
  lemma HitIsCurrent(w: World, h: seq<nat>, c: Cache, key: Key, data: SignedData)
    requires Increasing(h) && CacheInv(w, h, c) && c.last == h[|h| - 1] && NoCollisions(w)
    requires data in w.submitted && w.keyOf(data) == Some(key) && key in c.entries
    ensures c.entries[key] == w.eligible(c.channel, h[|h| - 1], data)
  {
    assert key in c.origins;
    LastIsLargest(h, c.origins[key].seqNo);
  }

  /** A purge in progress: these keys are still to be visited, those were evicted. */
  ghost predicate Evicting(c: Cache, evictions: int, keys: set<Key>, left: int, evicted: set<Key>) {
    && keys !! evicted && keys + evicted == c.entries.Keys
    && |evicted| == evictions - left && (evictions >= 0 ==> left >= 0)
  }

  lemma PurgeStarts(c: Cache, evictions: int)
    ensures Evicting(c, evictions, c.entries.Keys, evictions, {}) && Without(c, {}) == c
  {
    assert c.entries - {} == c.entries && c.origins - {} == c.origins;
  }

  lemma EvictOne(c: Cache, evictions: int, keys: set<Key>, left: int, evicted: set<Key>, key: Key)
    requires Evicting(c, evictions, keys, left, evicted) && key in keys && left != 0
    ensures Evicting(c, evictions, keys - {key}, left - 1, evicted + {key})
    ensures Without(c, evicted + {key}) == Without(Without(c, evicted), {key})
  {
    assert key !in evicted;
    assert (keys - {key}) + (evicted + {key}) == keys + evicted;
    assert c.entries - (evicted + {key}) == c.entries - evicted - {key};
    assert c.origins - (evicted + {key}) == c.origins - evicted - {key};
  }

  lemma PurgeEnds(c: Cache, evictions: int, keys: set<Key>, left: int, evicted: set<Key>)
    requires Evicting(c, evictions, keys, left, evicted) && (left == 0 || keys == {})
    ensures Evicts(c, evictions, evicted)
  {
    if keys == {} {
      assert evicted == c.entries.Keys;
    }
  }
}
