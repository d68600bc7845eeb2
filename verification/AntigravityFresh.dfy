/** How long the local Antigravity replay cache serves what was stored
    (internal/cache/antigravity_reasoning_replay_cache.go): whole sequences of calls with their times and replies. */
module AntigravityFresh {
  import opened Wrappers
  import opened ByteText
  import opened Eviction
  import opened AntigravityCache

  datatype Call =
    | Get(key: Key, now: int, next: Branch)
    | Set(key: Key, items: Items, now: int, next: Branch)
    | Replace(key: Key, snapshot: Snapshot, items: Items, now: int, next: Branch)
    | DeleteIf(key: Key, snapshot: Snapshot, now: int, next: Branch)
    | Delete(key: Key, now: int, next: Branch)
    | Purge(now: int)
    | Clear

  datatype Reply = Served(items: Items, found: bool) | Done(ok: bool)

  /** What the methods of `ReplayCache` promise of one call. */
  ghost predicate Did(l: Limits, c: Cache, call: Call, c': Cache, reply: Reply) {
    match call
    case Get(key, now, next) => reply.Served? && Got(l, c, key, now, next, c', reply.items, reply.found)
    case Set(key, items, now, next) => reply.Done? && Trimmed(l, Put(c, key, items, now, next, false), c')
    case Replace(key, s, items, now, next) =>
      && reply.Done? && reply.ok == CanReplace(c, key, s, items)
      && if reply.ok then Trimmed(l, Replaced(c, key, s, items, now, next), c') else c' == c
    case DeleteIf(key, s, now, next) =>
      && reply.Done? && reply.ok == Matches(c, key, s)
      && if reply.ok then Trimmed(l, Put(c, key, [], now, next, true), c') else c' == c
    case Delete(key, now, next) => reply.Done? && Trimmed(l, Put(c, key, [], now, next, true), c')
    case Purge(now) => reply.Done? && c' == Drop(c, set k | k in c.entries && c.entries[k].timestamp < now - l.ttl)
    case Clear => reply.Done? && c' == Cache(map[], c.nextRevision, c.epoch + 1)
  }

  ghost predicate Got(l: Limits, c: Cache, key: Key, now: int, next: Branch, c': Cache, items: Items, found: bool) {
    && found == (items != [])
    && if key in c.entries && now <= c.entries[key].timestamp + l.ttl then
         c' == Touch(c, key, now) && items == if c.entries[key].deleted then [] else c.entries[key].items
       else
         && items == []
         && var left := Drop(c, {key});
           exists victims: set<Key> ::
             MakesRoom(l, left.entries, victims) && c' == Put(Drop(left, victims), key, [], now, next, true)
  }

  /** Each method of the cache is one of these calls. */
  method Perform(c: ReplayCache, call: Call) returns (reply: Reply)
    requires c.Valid()
    modifies c
    ensures c.Valid() && Did(c.limits, old(c.View()), call, c.View(), reply)
  {
    match call
    case Get(key, now, next) =>
      var items, snapshot, found := c.Get(key, now, next);
      reply := Served(items, found);
    case Set(key, items, now, next) =>
      c.Set(key, items, now, next);
      reply := Done(true);
    case Replace(key, snapshot, items, now, next) =>
      var published := c.Replace(key, snapshot, items, now, next);
      reply := Done(published);
    case DeleteIf(key, snapshot, now, next) =>
      var deleted := c.DeleteIfUnchanged(key, snapshot, now, next);
      reply := Done(deleted);
    case Delete(key, now, next) =>
      c.Delete(key, now, next);
      reply := Done(true);
    case Purge(now) =>
      c.Purge(now);
      reply := Done(true);
    case Clear =>
      c.Clear();
      reply := Done(true);
  }

  /** One call after another: `states[k]` is what the cache holds before the `k`-th. */
  ghost predicate Run(l: Limits, states: seq<Cache>, calls: seq<Call>, replies: seq<Reply>) {
    && |states| == |calls| + 1 && |replies| == |calls|
    && forall k | 0 <= k < |calls| :: Did(l, states[k], calls[k], states[k + 1], replies[k])
  }

  /** The call has stored these items under the key, and they are there. */
  ghost predicate Stores(call: Call, reply: Reply, c': Cache, key: Key, items: Items, t: int) {
    && key in c'.entries && items != []
    && ((call.Set? && call.key == key && call.items == items && call.now == t)
        || (call.Replace? && call.key == key && call.items == items && call.now == t && reply == Done(true)))
  }

  /** When a key stored at `t` was last read. */
  function LastRead(calls: seq<Call>, key: Key, t: int): int {
    if calls == [] then t
    else
      var last := calls[|calls| - 1];
      if last.Get? && last.key == key then last.now else LastRead(calls[..|calls| - 1], key, t)
  }

  /** The call deletes nothing of this key, writes nothing over it and does not evict it, and if it looks at the clock
      no more than `ttl` has passed since `t`. */
  ghost predicate Spares(l: Limits, call: Call, reply: Reply, c': Cache, key: Key, t: int) {
    match call
    case Get(k, now, _) => if k == key then now - t <= l.ttl else key in c'.entries
    case Purge(now) => now - t <= l.ttl
    case Clear => false
    case Replace(k, _, _, _, _) => (k != key || reply == Done(false)) && key in c'.entries
    case DeleteIf(k, _, _, _) => (k != key || reply == Done(false)) && key in c'.entries
    case _ => call.key != key && key in c'.entries
  }

  ghost predicate Holds(c: Cache, key: Key, items: Items, t: int) {
    key in c.entries && !c.entries[key].deleted && c.entries[key].items == items && c.entries[key].timestamp == t
  }

  lemma TrimmedHolds(l: Limits, c: Cache, c': Cache, key: Key, items: Items, t: int)
    requires Holds(c, key, items, t) && Trimmed(l, c, c') && key in c'.entries
    ensures Holds(c', key, items, t)
  {
  }

  lemma StoreHolds(l: Limits, c: Cache, call: Call, c': Cache, reply: Reply, key: Key, items: Items, t: int)
    requires Did(l, c, call, c', reply) && Stores(call, reply, c', key, items, t)
    ensures Holds(c', key, items, t)
  {
    if call.Set? {
      TrimmedHolds(l, Put(c, key, items, t, call.next, false), c', key, items, t);
    } else {
      TrimmedHolds(l, Replaced(c, key, call.snapshot, items, t, call.next), c', key, items, t);
    }
  }

  lemma SparedHolds(l: Limits, c: Cache, call: Call, c': Cache, reply: Reply, key: Key, items: Items, t: int)
    requires Did(l, c, call, c', reply) && Spares(l, call, reply, c', key, t) && Holds(c, key, items, t)
    ensures Holds(c', key, items, if call.Get? && call.key == key then call.now else t)
  {
    match call
    case Set(k, some, now, next) => TrimmedHolds(l, Put(c, k, some, now, next, false), c', key, items, t);
    case Replace(k, s, some, now, next) =>
      if reply.ok {
        TrimmedHolds(l, Replaced(c, k, s, some, now, next), c', key, items, t);
      }
    case DeleteIf(k, s, now, next) =>
      if reply.ok {
        TrimmedHolds(l, Put(c, k, [], now, next, true), c', key, items, t);
      }
    case Delete(k, now, next) => TrimmedHolds(l, Put(c, k, [], now, next, true), c', key, items, t);
    case _ =>
  }

  /** Between the call that stores and the next read, the entry stands as it was stored. */
  lemma {:induction false} HoldsOn(l: Limits, states: seq<Cache>, calls: seq<Call>, replies: seq<Reply>, i: nat, j: nat,
                                   key: Key, items: Items, t: int)
    requires Run(l, states, calls, replies) && i <= j <= |calls| && Holds(states[i], key, items, t)
    requires forall k | i <= k < j ::
      Spares(l, calls[k], replies[k], states[k + 1], key, LastRead(calls[i..k], key, t))
    ensures Holds(states[j], key, items, LastRead(calls[i..j], key, t))
    decreases j
  {
    hide Did, Holds, Spares;
    if i < j {
      var k := j - 1;
      HoldsOn(l, states, calls, replies, i, k, key, items, t);
      assert Did(l, states[k], calls[k], states[k + 1], replies[k]);
      SparedHolds(l, states[k], calls[k], states[j], replies[k], key, items, LastRead(calls[i..k], key, t));
      assert calls[i..j][..k - i] == calls[i..k];
    } else {
      assert calls[i..j] == [];
    }
  }

  lemma HeldIsServed(l: Limits, c: Cache, call: Call, c': Cache, reply: Reply, items: Items, t: int)
    requires Did(l, c, call, c', reply) && call.Get? && items != [] && Holds(c, call.key, items, t)
    ensures reply == (if call.now - t <= l.ttl then Served(items, true) else Served([], false))
    ensures call.key in c'.entries && c'.entries[call.key].timestamp == call.now
  {
  }

  /** What a Set or a Replace has stored is served, the same items, to every Get for as long as `ttl` after it was
      stored or last read, if nothing deletes, overwrites or evicts it; and to no Get after that. Each Get that it is
      served to starts the time anew. */
  lemma FreshIsServed(l: Limits, states: seq<Cache>, calls: seq<Call>, replies: seq<Reply>, i: nat, j: nat, key: Key,
                      items: Items, t: int)
    requires Run(l, states, calls, replies) && i < j < |calls|
    requires Stores(calls[i], replies[i], states[i + 1], key, items, t)
    requires forall k | i < k < j ::
      Spares(l, calls[k], replies[k], states[k + 1], key, LastRead(calls[i + 1..k], key, t))
    requires calls[j].Get? && calls[j].key == key
    ensures var now, last := calls[j].now, LastRead(calls[i + 1..j], key, t);
      && replies[j] == (if now - last <= l.ttl then Served(items, true) else Served([], false))
      && key in states[j + 1].entries && states[j + 1].entries[key].timestamp == now
  {
    hide Did, Spares, Holds;
    assert Did(l, states[i], calls[i], states[i + 1], replies[i]);
    assert Did(l, states[j], calls[j], states[j + 1], replies[j]);
    StoreHolds(l, states[i], calls[i], states[i + 1], replies[i], key, items, t);
    HoldsOn(l, states, calls, replies, i + 1, j, key, items, t);
    HeldIsServed(l, states[j], calls[j], states[j + 1], replies[j], items, LastRead(calls[i + 1..j], key, t));
  }

  /** A purge leaves exactly the entries that were stored or read at most `ttl` ago, as they were. */
  lemma PurgeKeepsTheFresh(l: Limits, c: Cache, now: int, c': Cache, reply: Reply, key: Key)
    requires Did(l, c, Purge(now), c', reply)
    ensures key in c'.entries <==> key in c.entries && now - c.entries[key].timestamp <= l.ttl
    ensures key in c'.entries ==> c'.entries[key] == c.entries[key]
  {
  }

  /** What an event may cost other keys: nothing as long as the map has room; else at most one batch, and of those
      that are lost each was stored or read no later than any that stays. */
  ghost predicate CostsTheOldest(l: Limits, before: map<Key, Entry>, after: map<Key, Entry>, key: Key) {
    var lost := before.Keys - after.Keys - {key};
    CostsABatch(l, before, after, key, lost) && AreOlder(before, after, key, lost)
  }

  ghost predicate CostsABatch(l: Limits, before: map<Key, Entry>, after: map<Key, Entry>, key: Key, lost: set<Key>) {
    && |after| <= l.maxEntries
    && (lost != {} ==> |before.Keys + {key}| > l.maxEntries)
    && |lost| <= l.evictBatch
  }

  ghost predicate AreOlder(before: map<Key, Entry>, after: map<Key, Entry>, key: Key, lost: set<Key>) {
    forall k, m | k in lost && m in before && m in after && m != key ::
      k in before && before[k].timestamp <= before[m].timestamp == after[m].timestamp
  }

  lemma FewerAre<T>(some: set<T>, all: set<T>)
    requires some <= all
    ensures |some| <= |all|
  {
    assert all == some + (all - some);
  }

  lemma TrimCostsTheOldest(l: Limits, c: Cache, stored: Cache, c': Cache, key: Key)
    requires l.Valid() && |c.entries| <= l.maxEntries && Trimmed(l, stored, c')
    requires key in stored.entries && stored.entries == c.entries[key := stored.entries[key]]
    ensures CostsTheOldest(l, c.entries, c'.entries, key)
  {
    var all := stored.entries;
    assert all.Keys == c.entries.Keys + {key} && |all.Keys| == |all| && |c.entries.Keys| == |c.entries|;
    if |all| > l.maxEntries {
      var victims: set<Key> :| OldestOf(Stamps(all), victims, l.evictBatch) && c'.entries == all - victims;
      VictimsCost(l, c.entries, all, victims, key);
    } else {
      SameKeysCostNothing(l, c.entries, all, key);
    }
  }

  lemma SameKeysCostNothing(l: Limits, before: map<Key, Entry>, after: map<Key, Entry>, key: Key)
    requires after.Keys == before.Keys + {key} && |after| <= l.maxEntries
    requires forall m | m in before && m != key :: after[m].timestamp == before[m].timestamp
    ensures CostsTheOldest(l, before, after, key)
  {
    assert before.Keys - after.Keys - {key} == {};
  }

  lemma NothingCostsNothing(l: Limits, entries: map<Key, Entry>, key: Key)
    requires |entries| <= l.maxEntries
    ensures CostsTheOldest(l, entries, entries, key)
  {
    assert entries.Keys - entries.Keys - {key} == {};
  }

  lemma VictimsCost(l: Limits, before: map<Key, Entry>, stored: map<Key, Entry>, victims: set<Key>, key: Key)
    requires l.Valid() && l.maxEntries < |stored| <= l.maxEntries + 1 && stored.Keys == before.Keys + {key}
    requires forall k | k in before && k != key :: stored[k] == before[k]
    requires OldestOf(Stamps(stored), victims, l.evictBatch)
    ensures CostsTheOldest(l, before, stored - victims, key)
  {
    var after := stored - victims;
    var lost := before.Keys - after.Keys - {key};
    StampsCount(stored);
    RemovalCount(stored, victims);
    assert |stored.Keys| == |stored|;
    FewerAre(lost, victims);
    forall k, m | k in lost && m in before && m in after && m != key
      ensures before[k].timestamp <= before[m].timestamp == after[m].timestamp
    {
      assert k in victims && Stamps(stored)[k] <= Stamps(stored)[m];
    }
  }

  lemma PutInRoom(left: map<Key, Entry>, victims: set<Key>, key: Key, e: Entry)
    requires victims <= left.Keys && key !in left
    ensures var after := (left - victims)[key := e];
      && after.Keys == (left.Keys - victims) + {key} && |after| == |left| - |victims| + 1
  {
    var rest := left - victims;
    RemovalCount(left, victims);
    assert rest[key := e].Keys == rest.Keys + {key};
    assert |rest[key := e].Keys| == |rest[key := e]| && |rest.Keys| == |rest|;
  }

  lemma WithoutKey(before: map<Key, Entry>, key: Key)
    ensures (before - {key}).Keys == before.Keys - {key} && |before - {key}| <= |before|
    ensures |before.Keys + {key}| == |before - {key}| + 1
  {
    var left := before - {key};
    assert left.Keys == before.Keys - {key} && |left.Keys| == |left| && |before.Keys| == |before|;
    FewerAre(left.Keys, before.Keys);
    assert before.Keys + {key} == left.Keys + {key};
  }

  lemma LostAre(before: set<Key>, key: Key, victims: set<Key>)
    requires victims <= before - {key}
    ensures before - (((before - {key}) - victims) + {key}) - {key} == victims
  {
  }

  /** The entry put into the room that the victims have left. */
  ghost predicate PutBeside(before: map<Key, Entry>, key: Key, victims: set<Key>, after: map<Key, Entry>) {
    && after.Keys == ((before.Keys - {key}) - victims) + {key}
    && |after| == |before - {key}| - |victims| + 1
    && forall m | m in after && m != key :: m in before && after[m] == before[m] && m !in victims
  }

  lemma PutIsBeside(before: map<Key, Entry>, key: Key, victims: set<Key>, e: Entry)
    requires victims <= (before - {key}).Keys
    ensures PutBeside(before, key, victims, ((before - {key}) - victims)[key := e])
  {
    PutInRoom(before - {key}, victims, key, e);
    WithoutKey(before, key);
  }

  lemma VictimsAreOlder(l: Limits, before: map<Key, Entry>, key: Key, victims: set<Key>, after: map<Key, Entry>)
    requires l.Valid() && |before - {key}| <= l.maxEntries && MakesRoom(l, before - {key}, victims)
    requires PutBeside(before, key, victims, after)
    ensures AreOlder(before, after, key, victims)
  {
    hide MakesRoom;
    var left := before - {key};
    VictimsAre(l, left, victims);
    forall k, m | k in victims && m in before && m in after && m != key
      ensures k in before && before[k].timestamp <= before[m].timestamp == after[m].timestamp
    {
      assert k in left && m in left && left[k].timestamp <= left[m].timestamp;
    }
  }

  lemma VictimsAreABatch(l: Limits, before: map<Key, Entry>, key: Key, victims: set<Key>, after: map<Key, Entry>)
    requires l.Valid() && |before| <= l.maxEntries && MakesRoom(l, before - {key}, victims)
    requires |after| == |before - {key}| - |victims| + 1
    ensures CostsABatch(l, before, after, key, victims)
  {
    hide MakesRoom;
    WithoutKey(before, key);
    VictimsAre(l, before - {key}, victims);
  }

  lemma VictimsAreLost(before: map<Key, Entry>, key: Key, victims: set<Key>, after: map<Key, Entry>)
    requires PutBeside(before, key, victims, after) && victims <= (before - {key}).Keys
    ensures before.Keys - after.Keys - {key} == victims
    ensures |after| == |before - {key}| - |victims| + 1
  {
    assert (before - {key}).Keys == before.Keys - {key};
    LostAre(before.Keys, key, victims);
  }

  lemma RoomCostsTheOldest(l: Limits, before: map<Key, Entry>, key: Key, victims: set<Key>, after: map<Key, Entry>)
    requires l.Valid() && |before| <= l.maxEntries && |before - {key}| <= l.maxEntries
    requires MakesRoom(l, before - {key}, victims) && victims <= (before - {key}).Keys
    requires PutBeside(before, key, victims, after)
    ensures CostsTheOldest(l, before, after, key)
  {
    hide MakesRoom, PutBeside, AreOlder, CostsABatch;
    VictimsAreLost(before, key, victims, after);
    VictimsAreOlder(l, before, key, victims, after);
    VictimsAreABatch(l, before, key, victims, after);
  }

  lemma VictimsAre(l: Limits, left: map<Key, Entry>, victims: set<Key>)
    requires l.Valid() && |left| <= l.maxEntries && MakesRoom(l, left, victims)
    ensures victims <= left.Keys && |victims| <= l.evictBatch
    ensures victims != {} ==> |left| == l.maxEntries
    ensures |left| == l.maxEntries ==> |victims| > 0
    ensures forall k, m | k in victims && m in left && m !in victims :: left[k].timestamp <= left[m].timestamp
  {
    StampsCount(left);
    if |left| == l.maxEntries {
      forall k, m | k in victims && m in left && m !in victims
        ensures left[k].timestamp <= left[m].timestamp
      {
        assert Stamps(left)[k] <= Stamps(left)[m];
      }
    }
  }

  lemma PurgedIsSmaller(c: Cache, gone: set<Key>)
    ensures |Drop(c, gone).entries| <= |c.entries|
  {
    var left := Drop(c, gone).entries;
    assert left.Keys <= c.entries.Keys && |left.Keys| == |left| && |c.entries.Keys| == |c.entries|;
    FewerAre(left.Keys, c.entries.Keys);
  }

  lemma GetCostsTheOldest(l: Limits, c: Cache, call: Call, c': Cache, reply: Reply)
    requires l.Valid() && |c.entries| <= l.maxEntries && Did(l, c, call, c', reply) && call.Get?
    ensures CostsTheOldest(l, c.entries, c'.entries, call.key)
  {
    var key, now := call.key, call.now;
    if key in c.entries && now <= c.entries[key].timestamp + l.ttl {
      assert c'.entries.Keys == c.entries.Keys + {key};
      assert |c'.entries.Keys| == |c'.entries| && |c.entries.Keys| == |c.entries|;
      SameKeysCostNothing(l, c.entries, c'.entries, key);
    } else {
      var left := Drop(c, {key});
      var victims: set<Key> :|
        MakesRoom(l, left.entries, victims) && c' == Put(Drop(left, victims), key, [], now, call.next, true);
      hide Did, Got, MakesRoom, CostsTheOldest, PutBeside;
      WithoutKey(c.entries, key);
      VictimsAre(l, left.entries, victims);
      PutIsBeside(c.entries, key, victims, c'.entries[key]);
      assert c'.entries == (left.entries - victims)[key := c'.entries[key]];
      RoomCostsTheOldest(l, c.entries, key, victims, c'.entries);
    }
  }

  /** Each call keeps the bound of the cache; whatever it evicts is the oldest there is, a batch at the most, and only
      when the call's own key has no room. */
  lemma EvictsTheOldest(l: Limits, c: Cache, call: Call, c': Cache, reply: Reply)
    requires l.Valid() && |c.entries| <= l.maxEntries && Did(l, c, call, c', reply)
    ensures call.Purge? || call.Clear? ==> |c'.entries| <= l.maxEntries
    ensures !call.Purge? && !call.Clear? ==> CostsTheOldest(l, c.entries, c'.entries, call.key)
  {
    hide CostsTheOldest, Trimmed, Got, CanReplace, Matches;
    match call
    case Get(key, now, next) =>
      GetCostsTheOldest(l, c, call, c', reply);
    case Set(key, items, now, next) =>
      TrimCostsTheOldest(l, c, Put(c, key, items, now, next, false), c', key);
    case Replace(key, s, items, now, next) =>
      if reply.ok {
        TrimCostsTheOldest(l, c, Replaced(c, key, s, items, now, next), c', key);
      } else {
        NothingCostsNothing(l, c.entries, key);
      }
    case DeleteIf(key, s, now, next) =>
      if reply.ok {
        TrimCostsTheOldest(l, c, Put(c, key, [], now, next, true), c', key);
      } else {
        NothingCostsNothing(l, c.entries, key);
      }
    case Delete(key, now, next) =>
      TrimCostsTheOldest(l, c, Put(c, key, [], now, next, true), c', key);
    case Purge(now) =>
      PurgedIsSmaller(c, set k | k in c.entries && c.entries[k].timestamp < now - l.ttl);
    case Clear =>
  }
}
